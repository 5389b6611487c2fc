/** The OSInfo facade of libbpfgo's `helpers` package: discovery of the
    distribution and running kernel, read-only accessors, and the kernel-release
    comparison against the running kernel. The host (environment, file system,
    kernel query) is passed in as a value. */
module Helpers {

  import opened Wrappers
  import opened Text
  import opened Errors
  import opened ReleaseID
  import opened OSRelease
  import opened KernelVersion

  /** What the host offers at discovery time: the value of
      `LIBBPFGO_OSRELEASE_FILE` ("" when unset), the files that can be opened
      with their contents, and the outcome of the running-kernel query (the
      release string, or the reason it failed). */
  datatype Host = Host(
    osReleaseFileEnv: string,
    files: map<string, string>,
    uname: Result<string, string>)

  const DefaultOSReleaseFile := "/etc/os-release"

  /** The path discovery consults: the override when it is non-empty, the
      conventional location otherwise. */
  function ResolveOSReleaseFilePath(env: string): (path: string)
    ensures path != ""
    ensures env != "" ==> path == env
    ensures env == "" ==> path == DefaultOSReleaseFile
  {
    if env != "" then env else DefaultOSReleaseFile
  }

  /** The facade: the path that was read, the field values, and the cached
      distribution code. */
  datatype OSInfo = OSInfo(
    osReleaseFilePath: string,
    osReleaseFieldValues: map<OSReleaseField, string>,
    osReleaseID: OSReleaseID)

  /** The cached code derived from a field map: the code of the `ID` value, or
      0 when the field is absent. */
  function IDOf(fields: map<OSReleaseField, string>): (id: OSReleaseID)
    ensures OS_ID !in fields ==> id == UNKNOWN
    ensures OS_ID in fields ==> id == ParseID(fields[OS_ID])
  {
    if OS_ID in fields then ParseID(fields[OS_ID]) else UNKNOWN
  }

  /** The cached code agrees with the `ID` field. In particular a recognised
      code means the descriptor has an `ID`, and the code's name is that value
      normalised. */
  predicate Valid(info: OSInfo)
    ensures Valid(info) && info.osReleaseID != UNKNOWN ==>
      && OS_ID in info.osReleaseFieldValues
      && String(info.osReleaseID) == Normalize(info.osReleaseFieldValues[OS_ID])
  {
    info.osReleaseID == IDOf(info.osReleaseFieldValues)
  }

  /** The path discovery read the descriptor from. */
  function GetOSReleaseFilePath(info: OSInfo): (path: string)
    ensures path == info.osReleaseFilePath
  {
    info.osReleaseFilePath
  }

  /** The cached distribution code; on a valid facade, the code of the `ID`
      value, and `UNKNOWN` when there is no `ID`. */
  function GetOSReleaseID(info: OSInfo): (id: OSReleaseID)
    ensures Valid(info) ==>
      && (OS_ID !in info.osReleaseFieldValues ==> id == UNKNOWN)
      && (OS_ID in info.osReleaseFieldValues ==> id == ParseID(info.osReleaseFieldValues[OS_ID]))
  {
    info.osReleaseID
  }

  /** The stored value of a field, or the empty string when it is absent;
      never fails. */
  function GetOSReleaseFieldValue(info: OSInfo, field: OSReleaseField): (value: string)
    ensures field in info.osReleaseFieldValues ==> value == info.osReleaseFieldValues[field]
    ensures field !in info.osReleaseFieldValues ==> value == ""
  {
    if field in info.osReleaseFieldValues then info.osReleaseFieldValues[field] else ""
  }

  /** Storing a value under one field is read back from that field and leaves
      every other field's reading as it was. */
  lemma FieldValueOfUpdate(info: OSInfo, f: OSReleaseField, v: string, g: OSReleaseField)
    ensures var updated := info.(osReleaseFieldValues := info.osReleaseFieldValues[f := v]);
      GetOSReleaseFieldValue(updated, g) == if g == f then v else GetOSReleaseFieldValue(info, g)
  {
  }

  /** The result of discovery: the facade, when one was built, and the error,
      when one occurred. Go returns both as a pair. */
  datatype Discovery = Discovery(info: Option<OSInfo>, err: Option<Error>)

  /** `GetOSInfo`: resolve the path, open and parse the descriptor, cache the
      distribution code, then query the running kernel. An unopenable file
      stops discovery with an open error naming the path tried; a failed
      kernel query still yields the facade built from the file, together with
      an error mentioning `uname`. */
  function GetOSInfo(host: Host): (d: Discovery)
    ensures var path := ResolveOSReleaseFilePath(host.osReleaseFileEnv);
      && (d.info.None? <==> path !in host.files)
      && (d.info.None? ==> d.err.Some? && Message(d.err.value) == OpenPrefix + path)
      && (d.info.Some? ==>
            && GetOSReleaseFilePath(d.info.value) == path
            && path in host.files
            && Valid(d.info.value))
    ensures d.err.None? <==> d.info.Some? && host.uname.Success?
    ensures d.info.Some? && host.uname.Failure? ==>
      d.err.Some? && Contains(Message(d.err.value), "uname")
      && OS_KERNEL_RELEASE !in d.info.value.osReleaseFieldValues
    ensures d.info.Some? && host.uname.Success? ==>
      GetOSReleaseFieldValue(d.info.value, OS_KERNEL_RELEASE) == host.uname.value
    ensures d.info.Some? ==>
      forall f :: f != OS_KERNEL_RELEASE ==>
        GetOSReleaseFieldValue(d.info.value, f)
          == GetOSReleaseFieldValue(
               OSInfo("", ParseOSRelease(host.files[GetOSReleaseFilePath(d.info.value)]), UNKNOWN), f)
  {
    var path := ResolveOSReleaseFilePath(host.osReleaseFileEnv);
    if path !in host.files then
      Discovery(None, Some(OpenError(path)))
    else
      var fields := ParseOSRelease(host.files[path]);
      var info := OSInfo(path, fields, IDOf(fields));
      match host.uname
      case Success(release) =>
        Discovery(Some(info.(osReleaseFieldValues := fields[OS_KERNEL_RELEASE := release])), None)
      case Failure(cause) =>
        Discovery(Some(info), Some(UnameError(cause)))
  }

  /** The cached code and the `ID` field tell the same story: a recognised code
      is the code of the field's value, and its name is that value normalised
      (the value itself, when the file spells it canonically). */
  lemma IDAgreesWithField(info: OSInfo)
    requires Valid(info)
    requires GetOSReleaseID(info) != UNKNOWN
    ensures String(GetOSReleaseID(info)) == Normalize(GetOSReleaseFieldValue(info, OS_ID))
    ensures GetOSReleaseFieldValue(info, OS_ID) in Names ==>
      GetOSReleaseFieldValue(info, OS_ID) == String(GetOSReleaseID(info))
  {
    var value := GetOSReleaseFieldValue(info, OS_ID);
    if value in Names {
      NamesWellFormed();
      NormalizeCanonical(value);
    }
  }

  /** `OSInfo.CompareOSBaseKernelRelease`: compares `given` against the kernel
      release recorded at discovery. With no kernel release recorded the base is
      the empty string, whose single empty component is rejected. */
  function CompareOSBaseKernelRelease(info: OSInfo, given: string)
    : (r: (KernelVersionComparison, Option<Error>))
    ensures r.0 == KernelVersionInvalid <==> r.1.Some?
    ensures OS_KERNEL_RELEASE !in info.osReleaseFieldValues ==>
      r == (KernelVersionInvalid, Some(VersionValueError(Base, "", "")))
    ensures OS_KERNEL_RELEASE in info.osReleaseFieldValues ==>
      var base := info.osReleaseFieldValues[OS_KERNEL_RELEASE];
      ParseRelease(Base, base).Failure? ==>
        r == (KernelVersionInvalid, Some(ParseRelease(Base, base).error))
    ensures OS_KERNEL_RELEASE in info.osReleaseFieldValues ==>
      var base := info.osReleaseFieldValues[OS_KERNEL_RELEASE];
      ParseRelease(Base, base).Success? && ParseRelease(Given, given).Failure? ==>
        r == (KernelVersionInvalid, Some(ParseRelease(Given, given).error))
    ensures OS_KERNEL_RELEASE in info.osReleaseFieldValues ==>
      var base := info.osReleaseFieldValues[OS_KERNEL_RELEASE];
      ParseRelease(Base, base).Success? && ParseRelease(Given, given).Success? ==>
        var b, g := ParseRelease(Base, base).value, ParseRelease(Given, given).value;
        && (r.0 == KernelVersionNewer <==> VersionLess(b, g))
        && (r.0 == KernelVersionOlder <==> VersionLess(g, b))
        && (r.0 == KernelVersionEqual <==> g == b)
  {
    var base := GetOSReleaseFieldValue(info, OS_KERNEL_RELEASE);
    assert Split("", '.') == [""];
    CompareKernelRelease(base, given)
  }

  /** A facade as the comparator tests build it: only the kernel release set. */
  function WithKernelRelease(base: string): OSInfo {
    OSInfo("", map[OS_KERNEL_RELEASE := base], UNKNOWN)
  }

  /** With a well-formed recorded release, the facade orders `given` exactly
      as the two parsed versions are ordered. */
  lemma CompareParsed(base: string, given: string, b: Version, g: Version)
    requires ParseRelease(Base, base) == Success(b)
    requires ParseRelease(Given, given) == Success(g)
    ensures CompareOSBaseKernelRelease(WithKernelRelease(base), given) == (CompareVersions(b, g), None)
  {
  }

  /** With a malformed recorded release, the facade reports the base's parse
      error, whatever `given` is, however the facade was built. */
  lemma CompareRejected(info: OSInfo, given: string, e: Error)
    requires OS_KERNEL_RELEASE in info.osReleaseFieldValues
    requires ParseRelease(Base, info.osReleaseFieldValues[OS_KERNEL_RELEASE]) == Failure(e)
    ensures CompareOSBaseKernelRelease(info, given) == (KernelVersionInvalid, Some(e))
  {
  }

  /** The facade compares two releases spelled as dotted numerals as it
      compares the versions they spell. */
  lemma CompareNumerals(
    baseParts: seq<string>, base: string, b: Version,
    givenParts: seq<string>, given: string, g: Version)
    requires 1 <= |baseParts| <= MaxComponents && AllDecimal(baseParts)
    requires Join(baseParts, '.') == base
    requires Version(PaddedValue(baseParts, 0), PaddedValue(baseParts, 1), PaddedValue(baseParts, 2)) == b
    requires 1 <= |givenParts| <= MaxComponents && AllDecimal(givenParts)
    requires Join(givenParts, '.') == given
    requires Version(PaddedValue(givenParts, 0), PaddedValue(givenParts, 1), PaddedValue(givenParts, 2)) == g
    ensures CompareOSBaseKernelRelease(WithKernelRelease(base), given) == (CompareVersions(b, g), None)
  {
    ParseJoin(Base, baseParts);
    ParseJoin(Given, givenParts);
    CompareParsed(base, given, b, g);
  }

  /** `4.3.2` against base `5.1.1` is older, with no error. */
  lemma CompareOlderThan()
    ensures CompareOSBaseKernelRelease(WithKernelRelease("5.1.1"), "4.3.2") == (KernelVersionOlder, None)
  {
    CompareNumerals(["5", "1", "1"], "5.1.1", Version(5, 1, 1), ["4", "3", "2"], "4.3.2", Version(4, 3, 2));
  }

  /** `5.0` against base `5.0` is equal, with no error. */
  lemma CompareEqual()
    ensures CompareOSBaseKernelRelease(WithKernelRelease("5.0"), "5.0") == (KernelVersionEqual, None)
  {
    CompareNumerals(["5", "0"], "5.0", Version(5, 0, 0), ["5", "0"], "5.0", Version(5, 0, 0));
  }

  /** `4.3.2` is newer than base `3.1.1`. */
  lemma CompareNewerThan()
    ensures CompareOSBaseKernelRelease(WithKernelRelease("3.1.1"), "4.3.2") == (KernelVersionNewer, None)
  {
    CompareNumerals(["3", "1", "1"], "3.1.1", Version(3, 1, 1), ["4", "3", "2"], "4.3.2", Version(4, 3, 2));
  }

  /** `4.3.2` is newer than base `3.1`: the missing patch counts as zero. */
  lemma CompareNewerThanMissingPatch()
    ensures CompareOSBaseKernelRelease(WithKernelRelease("3.1"), "4.3.2") == (KernelVersionNewer, None)
  {
    CompareNumerals(["3", "1"], "3.1", Version(3, 1, 0), ["4", "3", "2"], "4.3.2", Version(4, 3, 2));
  }

  /** `4.3.2` is newer than base `3`: the missing minor and patch count as zero. */
  lemma CompareNewerThanMissingMinor()
    ensures CompareOSBaseKernelRelease(WithKernelRelease("3"), "4.3.2") == (KernelVersionNewer, None)
  {
    CompareNumerals(["3"], "3", Version(3, 0, 0), ["4", "3", "2"], "4.3.2", Version(4, 3, 2));
  }

  /** The facade rejects a base spelled as dot-free pieces with the error its
      parse reports: the format error beyond three pieces, else the value error
      naming the first piece that is not a numeral. */
  lemma CompareRejectedPieces(parts: seq<string>, base: string, given: string)
    requires 1 <= |parts|
    requires forall i :: 0 <= i < |parts| ==> '.' !in parts[i]
    requires Join(parts, '.') == base
    requires |parts| > MaxComponents || FirstNonDecimal(parts) < |parts|
    ensures var r := CompareOSBaseKernelRelease(WithKernelRelease(base), given);
      r.0 == KernelVersionInvalid
      && r.1 == Some(if |parts| > MaxComponents then VersionFormatError(Base, base)
                     else VersionValueError(Base, base, parts[FirstNonDecimal(parts)]))
  {
    RejectJoin(Base, parts);
    CompareRejected(WithKernelRelease(base), given, ParseRelease(Base, base).error);
  }

  /** A base with four components is invalid, with the exact format message,
      even though the given release is well formed. */
  lemma CompareTooManyComponents()
    ensures var r := CompareOSBaseKernelRelease(WithKernelRelease("3.0.0.0"), "4.3.2");
      r.0 == KernelVersionInvalid && r.1.Some?
      && Message(r.1.value) == "invalid base kernel version format: 3.0.0.0"
  {
    CompareTooManyComponentsError();
    TooManyComponentsMessage();
  }

  lemma CompareTooManyComponentsError()
    ensures var r := CompareOSBaseKernelRelease(WithKernelRelease("3.0.0.0"), "4.3.2");
      r.0 == KernelVersionInvalid && r.1 == Some(VersionFormatError(Base, "3.0.0.0"))
  {
    assert Join(["3", "0", "0", "0"], '.') == "3.0.0.0";
    CompareRejectedPieces(["3", "0", "0", "0"], "3.0.0.0", "4.3.2");
  }

  lemma TooManyComponentsMessage()
    ensures Message(VersionFormatError(Base, "3.0.0.0"))
         == "invalid base kernel version format: 3.0.0.0"
  {
    assert Message(VersionFormatError(Base, "3.0.0.0")) == FormatPrefix(Base) + "3.0.0.0";
  }

  /** A base with a non-numeric component is invalid, and the message names the
      whole base and that component. */
  lemma CompareNotANumber()
    ensures var r := CompareOSBaseKernelRelease(WithKernelRelease("X.5.4"), "4.3.2");
      r.0 == KernelVersionInvalid && r.1.Some?
      && Message(r.1.value) == "invalid base kernel version value: X.5.4 issue with: X"
  {
    CompareNotANumberError();
    NotANumberMessage();
  }

  lemma CompareNotANumberError()
    ensures var r := CompareOSBaseKernelRelease(WithKernelRelease("X.5.4"), "4.3.2");
      r.0 == KernelVersionInvalid && r.1 == Some(VersionValueError(Base, "X.5.4", "X"))
  {
    var parts := ["X", "5", "4"];
    assert !IsDigit(parts[0][0]);
    assert FirstNonDecimal(parts) == 0;
    assert Join(parts, '.') == "X.5.4";
    CompareRejectedPieces(parts, "X.5.4", "4.3.2");
  }

  lemma NotANumberMessage()
    ensures Message(VersionValueError(Base, "X.5.4", "X"))
         == "invalid base kernel version value: X.5.4 issue with: X"
  {
    assert Message(VersionValueError(Base, "X.5.4", "X"))
        == ValuePrefix(Base) + "X.5.4" + IssueInfix + "X";
  }

  /** Discovery through the override: the override path is used verbatim and,
      when the file's last `ID` line reads `ID=debian`, the cached code is
      `DEBIAN` and the `ID` field reads back as `DEBIAN`'s name. */
  lemma GetOSInfoOverridePath(host: Host, lines: seq<string>, i: nat)
    requires host.osReleaseFileEnv == "testdata/os-release"
    requires host.uname.Success?
    requires "testdata/os-release" in host.files
    requires Split(host.files["testdata/os-release"], '\n') == lines
    requires i < |lines| && lines[i] == "ID=debian"
    requires forall j :: i < j < |lines| ==> !Assigns(ParseLine(lines[j]), OS_ID)
    ensures var d := GetOSInfo(host);
      && d.err.None? && d.info.Some?
      && GetOSReleaseFilePath(d.info.value) == "testdata/os-release"
      && GetOSReleaseID(d.info.value) == DEBIAN
      && GetOSReleaseFieldValue(d.info.value, OS_ID) == String(DEBIAN)
  {
    assert lines[i] == Key(OS_ID) + "=" + "debian";
    LastAssignmentWins(lines, i, OS_ID, "debian");
    DebianExample();
  }

  /** Discovery with the override empty: the conventional path is consulted,
      and either discovery succeeds with that path or it reports a failed
      kernel query. */
  lemma GetOSInfoDefaultPath(host: Host)
    requires host.osReleaseFileEnv == ""
    requires DefaultOSReleaseFile in host.files
    ensures var d := GetOSInfo(host);
      && d.info.Some?
      && GetOSReleaseFilePath(d.info.value) == "/etc/os-release"
      && (d.err.None? || Contains(Message(d.err.value), "uname"))
  {
  }

  /** Discovery through an override naming a file that cannot be opened fails
      with exactly `could not open LIBBPFGO_OSRELEASE_FILE <path>`. */
  lemma GetOSInfoMissingFile(host: Host)
    requires host.osReleaseFileEnv == "testdata/release"
    requires "testdata/release" !in host.files
    ensures var d := GetOSInfo(host);
      d.err.Some? && Message(d.err.value) == "could not open LIBBPFGO_OSRELEASE_FILE testdata/release"
  {
  }
}
