/** `InjectingApplicationBuilder.createAppending`: reads the JVM's specification version and
    picks the injectable the dependencies are added through. */
module ApplicationBuilder {
  import opened Wrappers
  import opened Text

  /** The injectables `createAppending` can choose: `createInstrumentationInjectable()`, which
      returns null, or the application class loader wrapped as an injectable. */
  datatype Injectable = NullInstrumentationInjectable | WrappedInjectableClassLoader

  datatype InjectingApplicationBuilder = InjectingApplicationBuilder(applicationName: string, injectable: Injectable)

  /** `IllegalStateException` for a version without two components, `NumberFormatException`
      for a component `Integer.parseInt` refuses. */
  datatype BuildError = IllegalState(version: string) | NumberFormat(part: string)

  /** The choice made from the parsed major and minor version: instrumentation for any JVM
      newer than 1.8. */
  function InjectableFor(major: int, minor: int): (i: Injectable)
    ensures i == NullInstrumentationInjectable <==> major > 1 || minor > 8
  {
    if major > 1 || minor > 8 then NullInstrumentationInjectable else WrappedInjectableClassLoader
  }

  /** `createAppending(applicationName)` for the specification version `version`, as written:
      the version must have at least two dot-separated components. */
  function CreateAppending(applicationName: string, version: string): (r: Result<InjectingApplicationBuilder, BuildError>)
    ensures |JavaSplit(version, '.')| < 2 <==> r == Err(IllegalState(version))
    ensures var parts := JavaSplit(version, '.');
      |parts| >= 2 ==> (r.Ok? <==> ParseInt(parts[0]).Some? && ParseInt(parts[1]).Some?)
    ensures var parts := JavaSplit(version, '.');
      |parts| >= 2 && ParseInt(parts[0]).None? ==> r == Err(NumberFormat(parts[0]))
    ensures var parts := JavaSplit(version, '.');
      |parts| >= 2 && ParseInt(parts[0]).Some? && ParseInt(parts[1]).None? ==> r == Err(NumberFormat(parts[1]))
    ensures r.Ok? ==> r.value.applicationName == applicationName
    ensures r.Ok? ==> var parts := JavaSplit(version, '.');
      && ParseInt(parts[0]).Some? && ParseInt(parts[1]).Some?
      && r.value.injectable == InjectableFor(ParseInt(parts[0]).value, ParseInt(parts[1]).value)
  {
    var parts := JavaSplit(version, '.');
    if |parts| < 2 then Err(IllegalState(version))
    else
      match ParseInt(parts[0])
      case None => Err(NumberFormat(parts[0]))
      case Some(major) =>
        match ParseInt(parts[1])
        case None => Err(NumberFormat(parts[1]))
        case Some(minor) => Ok(InjectingApplicationBuilder(applicationName, InjectableFor(major, minor)))
  }

  /** `createAppending` with a missing minor component read as 0, so that the single-number
      versions of Java 9 and later reach the `major > 1` test. */
  function CreateAppendingCorrected(applicationName: string, version: string): (r: Result<InjectingApplicationBuilder, BuildError>)
    ensures |JavaSplit(version, '.')| >= 2 ==> r == CreateAppending(applicationName, version)
    ensures |JavaSplit(version, '.')| == 0 <==> r == Err(IllegalState(version))
  {
    var parts := JavaSplit(version, '.');
    if |parts| == 0 then Err(IllegalState(version))
    else
      match ParseInt(parts[0])
      case None => Err(NumberFormat(parts[0]))
      case Some(major) =>
        var minor := if |parts| >= 2 then ParseInt(parts[1]) else Some(0);
        match minor
        case None => Err(NumberFormat(parts[1]))
        case Some(m) => Ok(InjectingApplicationBuilder(applicationName, InjectableFor(major, m)))
  }

  lemma DecimalHasNoDot(n: nat)
    ensures '.' !in Decimal(n)
  {
    var s := Decimal(n);
    assert forall k :: 0 <= k < |s| ==> IsDigit(s[k]);
  }

  /** `major.minor` versions: the two numbers decide, and 1.8 and older keep the class loader. */
  lemma {:induction false} DottedVersionDecides(applicationName: string, major: nat, minor: nat)
    requires major <= IntMax && minor <= IntMax
    ensures CreateAppending(applicationName, Decimal(major) + "." + Decimal(minor))
      == Ok(InjectingApplicationBuilder(applicationName, InjectableFor(major, minor)))
  {
    DecimalHasNoDot(major);
    DecimalHasNoDot(minor);
    JavaSplitJoin([Decimal(major), Decimal(minor)], '.');
    assert Join([Decimal(major), Decimal(minor)], '.') == Decimal(major) + "." + Decimal(minor);
    ParseDecimal(major);
    ParseDecimal(minor);
  }

  /** Components after the second ("1.8.0", "11.0.2") do not take part in the choice. */
  lemma {:induction false} ExtraPartsIgnored(applicationName: string, major: nat, minor: nat, rest: string)
    requires major <= IntMax && minor <= IntMax
    requires rest != "" && '.' !in rest
    ensures CreateAppending(applicationName, Decimal(major) + "." + Decimal(minor) + "." + rest)
      == Ok(InjectingApplicationBuilder(applicationName, InjectableFor(major, minor)))
  {
    DecimalHasNoDot(major);
    DecimalHasNoDot(minor);
    var ps := [Decimal(major), Decimal(minor), rest];
    JavaSplitJoin(ps, '.');
    assert ps[1..] == [Decimal(minor), rest];
    assert Join(ps[1..], '.') == Decimal(minor) + "." + rest;
    assert Join(ps, '.') == Decimal(major) + "." + (Decimal(minor) + "." + rest);
    assert Join(ps, '.') == Decimal(major) + "." + Decimal(minor) + "." + rest;
    ParseDecimal(major);
    ParseDecimal(minor);
  }

  /** Java 8 and older report `1.x`: "1.8" selects the wrapped class loader. */
  lemma Java8UsesClassLoader(applicationName: string)
    ensures CreateAppending(applicationName, "1.8") == Ok(InjectingApplicationBuilder(applicationName, WrappedInjectableClassLoader))
  {
    assert Decimal(1) == "1" && Decimal(8) == "8";
    assert Decimal(1) + "." + Decimal(8) == "1.8";
    DottedVersionDecides(applicationName, 1, 8);
  }

  /** Java 9 and later report one number ("9", "11", "17"), which is rejected as it stands. */
  lemma {:induction false} SingleNumberVersionRejected(applicationName: string, n: nat)
    ensures CreateAppending(applicationName, Decimal(n)) == Err(IllegalState(Decimal(n)))
  {
    DecimalHasNoDot(n);
  }

  /** The version string of Java 17. */
  lemma Java17Rejected(applicationName: string)
    ensures CreateAppending(applicationName, "17") == Err(IllegalState("17"))
  {
    SingleNumberVersionRejected(applicationName, 17);
    assert Decimal(17) == "17";
  }

  /** With the correction every single-number version from 2 on (in practice Java 9 and later)
      selects instrumentation, and 0 and 1 the class loader. */
  lemma {:induction false} SingleNumberVersionCorrected(applicationName: string, n: nat)
    requires n <= IntMax
    ensures CreateAppendingCorrected(applicationName, Decimal(n))
      == Ok(InjectingApplicationBuilder(applicationName, if n > 1 then NullInstrumentationInjectable else WrappedInjectableClassLoader))
  {
    DecimalHasNoDot(n);
    ParseDecimal(n);
  }
}
