# .NET Core runtime discovery in the NUnit engine

This project models `NetCoreFrameworkLocator`, the part of the NUnit engine
that finds the .NET Core runtimes installed on a machine. The engine reads
candidate version strings from two sources, in this order:

1. the names of the sub-directories of `shared/Microsoft.NETCore.App` under
   the dotnet install directory;
2. the lines printed by `dotnet --list-runtimes` that start with
   `"Microsoft.NETCore.App "`, cut at offset 22.

Each candidate is read as a version by scanning its leading run of dots and
digits and handing that run to the `System.Version(string)` constructor. The
result is then cut to Major.Minor. A version that was already found is
skipped. Otherwise it is recorded as found. The directory loop then skips a
version whose Major is above 7, with only a log message. Every other new
version becomes `new RuntimeFramework(NetCore, version)`, which is yielded.
The result is the sequence of yielded runtimes, in that order.

That constructor throws for a version whose CLR version it does not know.
The comment at the ceiling check says that this is every version past .NET
7. The runtime-list loop has no ceiling. So a version with Major above 7
that only the runtime list reports reaches the constructor, and the
enumeration ends with that exception. The model keeps this outcome: an
enumeration is the runtimes yielded before the end, plus the version the
constructor threw for, if any.

Files:

- `wrappers.dfy`: the `Option` type.
- `dotnet_version.dfy` (module `DotNetVersion`): the `System.Version(string)`
  constructor on strings of digits and dots, split on '.', with decimal
  digit strings and `Int32.MaxValue` as the component bound.
- `locator.dfy` (module `NetCoreFrameworkLocator`): the locator itself.
  `TryGetVersionFromString`, `GetRuntimeList` and `FindDotNetCoreFrameworks`
  are methods with the source's loops. Each is proved equal to a
  specification function: `VersionFromString`, `RuntimeListCandidates` and
  `Discover`, where `Discover` is built from `Step`/`Pass`. The exception
  the constructor throws is the `thrownFor` out-parameter.
- `locator_properties.dfy` (module `LocatorProperties`): what those
  functions promise. This covers prefix-only parsing, truncation to
  Major.Minor, the failure cases, and the filter of the runtime list. For
  the reconciliation it covers no duplicates, the directory-only ceiling
  and its suppression of later list entries, the exception the list loop
  ends in instead of a ceiling, and the order of first occurrence.

The ceiling applies only in the directory loop, as the code is written,
although it reads like a policy for every discovered version. The model
follows the code. `DiscoverRuntimeListHasNoCeiling` proves that the
enumeration throws exactly when the runtime list alone reports a version
with Major above 7. `ScenarioUnsupportedMajor` shows this for "8.1".

## Model

| member | source | states |
|---|---|---|
| `NetCoreFrameworkLocator.TryGetVersionFromString` | src/NUnitEngine/nunit.engine.core/Internal/RuntimeFrameworks/NetCoreFrameworkLocator.cs:108-132 | The scan loop with its early break, then the constructor. It succeeds exactly when `VersionFromString` gives a version, and it returns that version. On failure it returns 0.0 (`new Version()`). |
| `NetCoreFrameworkLocator.VersionPrefix` | src/NUnitEngine/nunit.engine.core/Internal/RuntimeFrameworks/NetCoreFrameworkLocator.cs:110-119 | The result is a prefix of the text made only of dots and digits. It stops at the end of the text or at a character that is neither. So it is the longest such prefix. |
| `NetCoreFrameworkLocator.ScannedPrefixIsVersionPrefix` | src/NUnitEngine/nunit.engine.core/Internal/RuntimeFrameworks/NetCoreFrameworkLocator.cs:112-119 | Any count that covers only version characters and stops at the first other character (or at the end) gives exactly `VersionPrefix`. |
| `NetCoreFrameworkLocator.VersionFromString` | src/NUnitEngine/nunit.engine.core/Internal/RuntimeFrameworks/NetCoreFrameworkLocator.cs:121-131 | A version read from a candidate has Major and Minor within `Int32.MaxValue`. |
| `DotNetVersion.ParseVersion` | src/NUnitEngine/nunit.engine.core/Internal/RuntimeFrameworks/NetCoreFrameworkLocator.cs:123 | A constructed version has Major and Minor in 0..Int32.MaxValue. Build and Revision are -1 or in range. A Revision is never present without a Build. |
| `DotNetVersion.Split` | src/NUnitEngine/nunit.engine.core/Internal/RuntimeFrameworks/NetCoreFrameworkLocator.cs:123 | The components of a version string contain no '.', there is at least one, and joining them with '.' gives back the string. |
| `DotNetVersion.SplitJoin` | src/NUnitEngine/nunit.engine.core/Internal/RuntimeFrameworks/NetCoreFrameworkLocator.cs:123 | Splitting undoes joining for dot-free components. This is the other half of the round trip in `Split`. |
| `DotNetVersion.NatToString` | src/NUnitEngine/nunit.engine.core/Internal/RuntimeFrameworks/NetCoreFrameworkLocator.cs:32 | A printed component is a non-empty digit string whose value is the component. It has no leading zero, except for 0 itself, which prints as "0". |
| `DotNetVersion.ParseFormattedComponents` | src/NUnitEngine/nunit.engine.core/Internal/RuntimeFrameworks/NetCoreFrameworkLocator.cs:123 | Two to four in-range components written with dots construct the version with exactly those components. Missing Build and Revision are -1. |
| `DotNetVersion.ParseRejectsComponentCount` | src/NUnitEngine/nunit.engine.core/Internal/RuntimeFrameworks/NetCoreFrameworkLocator.cs:123-131 | One component, or more than four, makes the constructor fail. |
| `DotNetVersion.ParseRejectsOverflow` | src/NUnitEngine/nunit.engine.core/Internal/RuntimeFrameworks/NetCoreFrameworkLocator.cs:123-131 | A component above `Int32.MaxValue` makes the constructor fail. |
| `DotNetVersion.ParseRejectsEmptyComponent` | src/NUnitEngine/nunit.engine.core/Internal/RuntimeFrameworks/NetCoreFrameworkLocator.cs:123-131 | An empty component ("6..1", ".6", "6.") makes the constructor fail. |
| `LocatorProperties.VersionFromStringIgnoresSuffix` | src/NUnitEngine/nunit.engine.core/Internal/RuntimeFrameworks/NetCoreFrameworkLocator.cs:110-123 | Everything from the first character that is not a dot or a digit is ignored. The scanned prefix and the version read are those of the leading run alone. |
| `LocatorProperties.VersionFromStringTruncates` | src/NUnitEngine/nunit.engine.core/Internal/RuntimeFrameworks/NetCoreFrameworkLocator.cs:123-125 | Two to four in-range components, followed by any tag, read as exactly (first, second). Build and Revision are dropped. |
| `LocatorProperties.VersionFromStringRejectsNonNumeric` | src/NUnitEngine/nunit.engine.core/Internal/RuntimeFrameworks/NetCoreFrameworkLocator.cs:121-131 | A candidate with an empty leading run (for example "abc") gives no version. |
| `LocatorProperties.VersionFromStringRejectsOverflow` | src/NUnitEngine/nunit.engine.core/Internal/RuntimeFrameworks/NetCoreFrameworkLocator.cs:123-131 | A candidate with a component above `Int32.MaxValue` gives no version. |
| `LocatorProperties.VersionFromStringRejectsComponentCount` | src/NUnitEngine/nunit.engine.core/Internal/RuntimeFrameworks/NetCoreFrameworkLocator.cs:123-131 | A candidate with one component, or more than four, gives no version. |
| `LocatorProperties.VersionFromStringIdempotent` | src/NUnitEngine/nunit.engine.core/Internal/RuntimeFrameworks/NetCoreFrameworkLocator.cs:123-125 | Reading the printed Major.Minor form of a version that was read gives that same version again. |
| `LocatorProperties.ScenarioPreviewTag` | src/NUnitEngine/nunit.engine.core/Internal/RuntimeFrameworks/NetCoreFrameworkLocator.cs:110-125 | "6.0.21-preview" reads as 6.0. |
| `LocatorProperties.ScenarioNotAVersion` | src/NUnitEngine/nunit.engine.core/Internal/RuntimeFrameworks/NetCoreFrameworkLocator.cs:121-131 | "abc" gives no version. |
| `LocatorProperties.ScenarioTwoComponents` | src/NUnitEngine/nunit.engine.core/Internal/RuntimeFrameworks/NetCoreFrameworkLocator.cs:123-125 | "8.1" reads as 8.1. |
| `NetCoreFrameworkLocator.RuntimeListEntry` | src/NUnitEngine/nunit.engine.core/Internal/RuntimeFrameworks/NetCoreFrameworkLocator.cs:85-92 | A line gives an entry exactly when it starts with "Microsoft.NETCore.App ". The line is then that prefix followed by the entry, so offset 22 cuts exactly the prefix. |
| `NetCoreFrameworkLocator.GetRuntimeList` | src/NUnitEngine/nunit.engine.core/Internal/RuntimeFrameworks/NetCoreFrameworkLocator.cs:75-93 | If the process failed to start, nothing is yielded. Otherwise the read loop yields `RuntimeListCandidates` of the output lines. |
| `LocatorProperties.RuntimeListCandidatesExactly` | src/NUnitEngine/nunit.engine.core/Internal/RuntimeFrameworks/NetCoreFrameworkLocator.cs:85-93 | The prefix is 22 characters long. A string is yielded exactly when some output line is the prefix followed by it. |
| `NetCoreFrameworkLocator.RuntimeListCandidates` | src/NUnitEngine/nunit.engine.core/Internal/RuntimeFrameworks/NetCoreFrameworkLocator.cs:88-93 | There are never more entries than output lines, and each entry comes from a line that is the prefix followed by it. |
| `LocatorProperties.RuntimeListCandidatesInLineOrder` | src/NUnitEngine/nunit.engine.core/Internal/RuntimeFrameworks/NetCoreFrameworkLocator.cs:85-93 | The entries are in the order of their lines, one for each line that starts with the prefix, repeats included. Each entry has its own line, the prefix followed by the entry, at strictly increasing line indices. |
| `NetCoreFrameworkLocator.FindDotNetCoreFrameworks` | src/NUnitEngine/nunit.engine.core/Internal/RuntimeFrameworks/NetCoreFrameworkLocator.cs:17-45 | The two loops over `alreadyFound` give exactly `Discover` of the directory names and the runtime-list candidates: what is yielded, and the version whose `RuntimeFramework` construction threw, if any. With no process, the result is the directory results alone, with no exception. |
| `LocatorProperties.ParsedMembers` | src/NUnitEngine/nunit.engine.core/Internal/RuntimeFrameworks/NetCoreFrameworkLocator.cs:21-24 | The versions read from a source are exactly those some candidate of it reads as. |
| `NetCoreFrameworkLocator.Step` | src/NUnitEngine/nunit.engine.core/Internal/RuntimeFrameworks/NetCoreFrameworkLocator.cs:23-43 | One iteration only appends, to `alreadyFound` and to what is yielded, and yields at most one runtime. After an exception it changes nothing. It throws only for a version whose CLR version is unknown. In the directory loop it never throws, and never yields Major above 7. |
| `NetCoreFrameworkLocator.Pass` | src/NUnitEngine/nunit.engine.core/Internal/RuntimeFrameworks/NetCoreFrameworkLocator.cs:21-44 | A whole loop keeps the same promises: it only appends, yields at most one runtime per candidate, and changes nothing once it has thrown. It throws only for an unknown CLR version. The directory loop never throws and never yields Major above 7. |
| `NetCoreFrameworkLocator.PassAfterThrow` | src/NUnitEngine/nunit.engine.core/Internal/RuntimeFrameworks/NetCoreFrameworkLocator.cs:39-42 | Once a construction has thrown, the remaining candidates change nothing: the enumeration ends there. |
| `NetCoreFrameworkLocator.DirectoryResults` | src/NUnitEngine/nunit.engine.core/Internal/RuntimeFrameworks/NetCoreFrameworkLocator.cs:21-34 | The directory loop yields at most one runtime per directory name, never one with Major above 7, and never throws. |
| `NetCoreFrameworkLocator.Discover` | src/NUnitEngine/nunit.engine.core/Internal/RuntimeFrameworks/NetCoreFrameworkLocator.cs:17-45 | The directory results come first. At most one runtime is yielded per candidate. An exception is only ever for a version with an unknown CLR version. |
| `LocatorProperties.StepConsistent` | src/NUnitEngine/nunit.engine.core/Internal/RuntimeFrameworks/NetCoreFrameworkLocator.cs:24-42 | One iteration keeps `alreadyFound` free of duplicates. Everything yielded is a NetCore runtime already in `alreadyFound`, with pairwise distinct versions. |
| `LocatorProperties.PassConsistent` | src/NUnitEngine/nunit.engine.core/Internal/RuntimeFrameworks/NetCoreFrameworkLocator.cs:19-44 | A whole loop keeps that invariant. |
| `LocatorProperties.PassFound` | src/NUnitEngine/nunit.engine.core/Internal/RuntimeFrameworks/NetCoreFrameworkLocator.cs:24-41 | After a loop, `alreadyFound` holds only what it held before and versions the loop read. If the loop ran to the end, it holds every version the loop read, including those above the ceiling. |
| `LocatorProperties.PassYieldsOnlyNew` | src/NUnitEngine/nunit.engine.core/Internal/RuntimeFrameworks/NetCoreFrameworkLocator.cs:24-42 | Each version a loop yields was read from that loop's candidates, was not found before, and has a known CLR version. In the directory loop it also has Major at most 7. |
| `LocatorProperties.PassYieldsAllNew` | src/NUnitEngine/nunit.engine.core/Internal/RuntimeFrameworks/NetCoreFrameworkLocator.cs:24-42 | A loop that ends without an exception yields every version read from its candidates that was not found before. The directory loop leaves out those with Major above 7. |
| `LocatorProperties.PassThrows` | src/NUnitEngine/nunit.engine.core/Internal/RuntimeFrameworks/NetCoreFrameworkLocator.cs:27-43 | A loop ends in an exception exactly when one of its candidates gives a version that is new and whose CLR version is unknown. In the directory loop such a version must also be within the ceiling. The exception is for such a version. |
| `LocatorProperties.PassYieldsInFirstOccurrenceOrder` | src/NUnitEngine/nunit.engine.core/Internal/RuntimeFrameworks/NetCoreFrameworkLocator.cs:21-44 | Everything a loop yields was read from its candidates, in the order in which the candidates first give each version. Later repeats of a version do not move it. |
| `LocatorProperties.DiscoverNoDuplicates` | src/NUnitEngine/nunit.engine.core/Internal/RuntimeFrameworks/NetCoreFrameworkLocator.cs:19-44 | No two yielded runtimes have equal (major, minor), and every one is NetCore. |
| `LocatorProperties.DirectoryPassFound` | src/NUnitEngine/nunit.engine.core/Internal/RuntimeFrameworks/NetCoreFrameworkLocator.cs:21-34 | After the directory loop, `alreadyFound` holds exactly the versions the directory names give, including those above the ceiling. |
| `LocatorProperties.DiscoverSourceOrder` | src/NUnitEngine/nunit.engine.core/Internal/RuntimeFrameworks/NetCoreFrameworkLocator.cs:21-44 | The directory results are a prefix of what is yielded. Each was read from a directory name and is within the ceiling. The rest were read from the runtime list, and none is a version any directory name gave. |
| `LocatorProperties.DiscoverDirectoryOrder` | src/NUnitEngine/nunit.engine.core/Internal/RuntimeFrameworks/NetCoreFrameworkLocator.cs:21-34 | The directory results come from the directory names, in the order in which the names first give each version. |
| `LocatorProperties.DiscoverRuntimeListOrder` | src/NUnitEngine/nunit.engine.core/Internal/RuntimeFrameworks/NetCoreFrameworkLocator.cs:36-44 | The runtime-list results come from the list, in the order in which the list first gives each version. |
| `LocatorProperties.DiscoverDirectoryCeiling` | src/NUnitEngine/nunit.engine.core/Internal/RuntimeFrameworks/NetCoreFrameworkLocator.cs:24-39 | A version a directory name gives with Major above 7 is never yielded, even when the runtime list reports it too. |
| `LocatorProperties.DiscoverDirectoryComplete` | src/NUnitEngine/nunit.engine.core/Internal/RuntimeFrameworks/NetCoreFrameworkLocator.cs:21-30 | Every version a directory name gives with Major at most 7 is yielded by the directory loop. |
| `LocatorProperties.DiscoverRuntimeListComplete` | src/NUnitEngine/nunit.engine.core/Internal/RuntimeFrameworks/NetCoreFrameworkLocator.cs:36-43 | An enumeration that ends without an exception yields every version the runtime list gives that no directory name gave. |
| `LocatorProperties.DiscoverRuntimeListHasNoCeiling` | src/NUnitEngine/nunit.engine.core/Internal/RuntimeFrameworks/NetCoreFrameworkLocator.cs:27-43 | The list loop has no ceiling, so its constructor call is reached for Major above 7. The enumeration throws exactly when the runtime list gives a version with Major above 7 that no directory name gave. The exception is for such a version. |
| `LocatorProperties.ScenarioUnsupportedMajor` | src/NUnitEngine/nunit.engine.core/Internal/RuntimeFrameworks/NetCoreFrameworkLocator.cs:21-43 | Take "8.1". From a directory it yields nothing and does not throw. From the runtime list alone it yields nothing and throws for 8.1. From both it yields nothing and does not throw. |
| `LocatorProperties.ScenarioRepeatedMinor` | src/NUnitEngine/nunit.engine.core/Internal/RuntimeFrameworks/NetCoreFrameworkLocator.cs:21-34 | The directory names "6.0.1", "7.0.0", "6.0.2" yield 6.0 then 7.0, each once, and nothing is thrown. |

## Left out

- Starting `dotnet --list-runtimes` and reading its standard output
  (NetCoreFrameworkLocator.cs:63-83, 88-90) is process I/O. `GetRuntimeList`
  takes whether the start succeeded and the output lines as inputs.
- `GetDotNetInstallDirectory` (registry lookup on Windows, a fixed path
  elsewhere) is a platform call. It is not modelled.
- `GetRuntimeDirectories` (existence checks and directory enumeration) is
  file-system I/O. Its outcome, the directory names, is an input of
  `FindDotNetCoreFrameworks`. It is empty when the install directory,
  `dotnet.exe` or the runtime directory is missing.
- The `log.Error` message for an unsupported version is a logging side
  effect. The model only records the version in `alreadyFound` without
  yielding it.
- Lazy `yield return` evaluation is not modelled. The results are collected
  eagerly into a sequence, in the same order.
- `String.StartsWith(string)` uses a culture-sensitive comparison in .NET.
  The model compares ordinally. Lines with characters a culture ignores are
  therefore not modelled.
- `DotNetVersion.ParseVersion` is defined only for components made of ASCII
  digits. The signs and surrounding white space that `Int32.Parse` would
  accept never reach it here, because the scanned prefix holds only dots
  and digits.
- ClrVersionKnown: the CLR version table behind
  `RuntimeFramework.GetClrVersionForFramework`, which decides when the
  `RuntimeFramework` constructor throws, is not part of this model. The
  known versions are taken to be exactly those with Major at most 7, from
  the comment at NetCoreFrameworkLocator.cs:27-28.
- The exception itself is not modelled as control flow. The version it is
  thrown for is the `thrownFor` out-parameter of
  `FindDotNetCoreFrameworks`, and what the caller received before it is
  `frameworks`.
- `RuntimeType` has only `NetCore` and a stand-in for the engine's other
  runtime kinds. The enumeration itself is not part of this model.
- The runner-topology test cases
  (`nunit.engine.tests/.../NetStandardTestCases.cs`) are only expected test
  data. The runner factory they exercise is not part of this model.
