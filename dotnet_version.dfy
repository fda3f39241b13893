/**
 * The part of the .NET base class library the locator leans on: the
 * `System.Version(string)` constructor, over the strings of ASCII digits
 * and dots it is ever given here, with the decimal digit strings and the
 * dot-separated component lists it works with.
 */
module DotNetVersion {
  import opened Wrappers

  /** `Int32.MaxValue`: the largest value a version component may hold. */
  const Int32MaxValue: nat := 0x7FFF_FFFF

  predicate IsDigit(c: char) {
    '0' <= c <= '9'
  }

  predicate AllDigits(s: string) {
    forall i :: 0 <= i < |s| ==> IsDigit(s[i])
  }

  function DigitValue(c: char): nat
    requires IsDigit(c)
  {
    c as int - '0' as int
  }

  function DigitChar(d: nat): (c: char)
    requires d < 10
    ensures IsDigit(c) && DigitValue(c) == d
  {
    ('0' as int + d) as char
  }

  /** The value of a decimal digit string, most significant digit first. */
  function DigitsValue(s: string): nat
    requires AllDigits(s)
    decreases |s|
  {
    if s == [] then 0 else DigitsValue(s[..|s| - 1]) * 10 + DigitValue(s[|s| - 1])
  }

  /** The decimal form of `n`, without leading zeros (`Int32.ToString()`). */
  function NatToString(n: nat): (s: string)
    ensures |s| > 0 && AllDigits(s)
    ensures DigitsValue(s) == n
    ensures s[0] == '0' ==> n == 0 && |s| == 1
  {
    if n < 10 then [DigitChar(n)]
    else
      var init := NatToString(n / 10);
      var s := init + [DigitChar(n % 10)];
      assert s[..|s| - 1] == init;
      s
  }

  /** The parts of `s` separated by '.', as `String.Split('.')` gives them. */
  function Split(s: string): (parts: seq<string>)
    ensures |parts| >= 1
    ensures forall i :: 0 <= i < |parts| ==> '.' !in parts[i]
    ensures Join(parts) == s
  {
    if s == [] then [[]]
    else
      var rest := Split(s[1..]);
      if s[0] == '.' then
        assert s == "." + s[1..];
        [[]] + rest
      else
        var parts := [[s[0]] + rest[0]] + rest[1..];
        assert '.' !in [s[0]] + rest[0] by {
          assert forall i :: 1 <= i < |[s[0]] + rest[0]| ==> ([s[0]] + rest[0])[i] == rest[0][i - 1];
        }
        assert s == [s[0]] + s[1..];
        if |rest| == 1 then parts
        else
          assert parts[1..] == rest[1..];
          parts
  }

  /** The parts glued back together with '.' between them. */
  function Join(parts: seq<string>): string
    requires |parts| >= 1
    decreases |parts|
  {
    if |parts| == 1 then parts[0] else parts[0] + "." + Join(parts[1..])
  }

  /** Splitting undoes joining, as long as no part holds a '.' itself. */
  lemma {:induction false} SplitJoin(parts: seq<string>)
    requires |parts| >= 1
    requires forall i :: 0 <= i < |parts| ==> '.' !in parts[i]
    ensures Split(Join(parts)) == parts
    decreases |parts|
  {
    if |parts| == 1 {
      SplitNoDot(parts[0]);
    } else {
      SplitJoin(parts[1..]);
      SplitAfterDot(parts[0], Join(parts[1..]));
      assert parts == [parts[0]] + parts[1..];
    }
  }

  lemma {:induction false} SplitNoDot(s: string)
    requires '.' !in s
    ensures Split(s) == [s]
    decreases |s|
  {
    if s != [] {
      assert '.' !in s[1..] by {
        assert forall i :: 0 <= i < |s[1..]| ==> s[1..][i] == s[i + 1];
      }
      SplitNoDot(s[1..]);
      assert s == [s[0]] + s[1..];
    }
  }

  lemma {:induction false} SplitAfterDot(a: string, b: string)
    requires '.' !in a
    ensures Split(a + "." + b) == [a] + Split(b)
    decreases |a|
  {
    if a == [] {
      assert a + "." + b == "." + b;
      assert ("." + b)[1..] == b;
    } else {
      assert '.' !in a[1..] by {
        assert forall i :: 0 <= i < |a[1..]| ==> a[1..][i] == a[i + 1];
      }
      var s := a + "." + b;
      assert s[0] == a[0] && s[1..] == a[1..] + "." + b;
      var rest := Split(s[1..]);
      SplitAfterDot(a[1..], b);
      assert rest == [a[1..]] + Split(b);
      assert rest[0] == a[1..] && rest[1..] == Split(b);
      assert [a[0]] + a[1..] == a;
      assert Split(s) == [[a[0]] + rest[0]] + rest[1..];
    }
  }

  /** A version string assembled from numeric components: "6.0.21" from [6, 0, 21]. */
  function FormatComponents(components: seq<nat>): (s: string)
    requires |components| >= 1
  {
    Join(ComponentStrings(components))
  }

  function ComponentStrings(components: seq<nat>): (parts: seq<string>)
    ensures |parts| == |components|
    ensures forall i :: 0 <= i < |parts| ==> parts[i] == NatToString(components[i])
  {
    seq(|components|, i requires 0 <= i < |components| => NatToString(components[i]))
  }

  /**
   * A parsed `System.Version`: Build and Revision are -1 when the string
   * did not give them, as in .NET.
   */
  datatype FullVersion = FullVersion(major: nat, minor: nat, build: int, revision: int)

  /** A component `Int32.Parse` accepts with a value that fits a version. */
  predicate ValidComponent(part: string) {
    |part| > 0 && AllDigits(part) && DigitsValue(part) <= Int32MaxValue
  }

  /**
   * `new Version(s)`: None stands for the exception the constructor throws
   * (wrong number of components, an empty or overflowing component).
   */
  function ParseVersion(s: string): (r: Option<FullVersion>)
    ensures r.Some? ==> r.value.major <= Int32MaxValue && r.value.minor <= Int32MaxValue
    ensures r.Some? ==> -1 <= r.value.build <= Int32MaxValue && -1 <= r.value.revision <= Int32MaxValue
    ensures r.Some? ==> (r.value.revision >= 0 ==> r.value.build >= 0)
  {
    var parts := Split(s);
    if 2 <= |parts| <= 4 && forall i :: 0 <= i < |parts| ==> ValidComponent(parts[i]) then
      Some(FullVersion(
        DigitsValue(parts[0]),
        DigitsValue(parts[1]),
        if |parts| > 2 then DigitsValue(parts[2]) else -1,
        if |parts| > 3 then DigitsValue(parts[3]) else -1))
    else
      None
  }

  /** Two to four components in range come back as they were written. */
  lemma ParseFormattedComponents(components: seq<nat>)
    requires 2 <= |components| <= 4
    requires forall i :: 0 <= i < |components| ==> components[i] <= Int32MaxValue
    ensures ParseVersion(FormatComponents(components)) == Some(FullVersion(
      components[0],
      components[1],
      if |components| > 2 then components[2] else -1,
      if |components| > 3 then components[3] else -1))
  {
    var parts := ComponentStrings(components);
    SplitJoin(parts);
  }

  /** Fewer than two or more than four components make the constructor throw. */
  lemma ParseRejectsComponentCount(components: seq<nat>)
    requires |components| == 1 || |components| > 4
    ensures ParseVersion(FormatComponents(components)) == None
  {
    SplitJoin(ComponentStrings(components));
  }

  /** A component above `Int32.MaxValue` makes the constructor throw. */
  lemma ParseRejectsOverflow(components: seq<nat>, k: nat)
    requires |components| >= 1 && k < |components|
    requires components[k] > Int32MaxValue
    ensures ParseVersion(FormatComponents(components)) == None
  {
    var parts := ComponentStrings(components);
    SplitJoin(parts);
    assert !ValidComponent(parts[k]);
  }

  /** An empty component, as in "6..1", ".6" or "6.", makes the constructor throw. */
  lemma ParseRejectsEmptyComponent(parts: seq<string>, k: nat)
    requires |parts| >= 1 && k < |parts|
    requires forall i :: 0 <= i < |parts| ==> '.' !in parts[i]
    requires parts[k] == []
    ensures ParseVersion(Join(parts)) == None
  {
    SplitJoin(parts);
    assert !ValidComponent(Split(Join(parts))[k]);
  }
}
