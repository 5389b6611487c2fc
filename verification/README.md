# libbpfgo `helpers` OS information, modelled in Dafny

This project models the host-introspection helper of libbpfgo's `helpers`
package. The helper builds an `OSInfo` facade that describes the Linux
distribution and the running kernel. The model covers:

- **The `OSReleaseID` registry** (`release_id.dfy`). This is a closed table from
  small 32-bit codes to canonical distribution names. `String` maps a code to
  its name, or to `""` for an unregistered code. `ParseID` is the reverse
  lookup: it trims and lower-cases the name, then returns the matching code,
  or `UNKNOWN` (0).
- **Discovery** (`helpers.dfy`, `GetOSInfo`).
  - The path comes from `LIBBPFGO_OSRELEASE_FILE` when that is non-empty, and
    is `/etc/os-release` otherwise.
  - If the file cannot be opened, discovery fails with exactly
    `could not open LIBBPFGO_OSRELEASE_FILE <path>`.
  - Otherwise the descriptor is parsed and the distribution code is cached from
    its `ID` field.
  - The running kernel's release is then stored under the synthetic
    `OS_KERNEL_RELEASE` field. If the kernel query fails, the facade built from
    the file is still returned, together with an error whose text contains
    `uname`.
  - The host (environment value, openable files with their contents, and the
    kernel query's outcome) is a `Host` value passed in.
- **The accessors** `GetOSReleaseFilePath`, `GetOSReleaseID` and
  `GetOSReleaseFieldValue` (`helpers.dfy`). The last returns `""` for an absent
  field.
- **The descriptor parser** (`os_release.dfy`). It reads plain `KEY=VALUE`
  lines, splitting each at its first `=`. Unknown keys, comments and lines
  without `=` are skipped. The last assignment of a key wins.
- **The kernel-version comparator** (`kernel_version.dfy`,
  `CompareKernelRelease`; `helpers.dfy`, `CompareOSBaseKernelRelease`).
  - A release string is split on `.`.
  - Four or more components give `invalid <role> kernel version format: <release>`.
  - A component that is not a decimal numeral gives
    `invalid <role> kernel version value: <release> issue with: <component>`,
    naming the first such component.
  - Missing trailing components count as zero.
  - The resulting `(major, minor, patch)` triples are compared
    lexicographically. The result is `KernelVersionNewer` when the given
    release is greater than the base, `KernelVersionOlder` when it is smaller,
    and `KernelVersionEqual` otherwise. Any parse error gives
    `KernelVersionInvalid` together with the error.
  - The base comes from the facade's `OS_KERNEL_RELEASE` field. An absent field
    reads as the empty string, which is rejected.

Errors are the `Errors.Error` datatype, and `Errors.Message` renders the exact
text each one carries. `text.dfy` holds the string toolkit:
- splitting and joining, with their round trips;
- decimal numerals;
- ASCII lower-casing and white-space trimming.

`wrappers.dfy` holds `Option` and `Result`.

The implementation file `helpers/osinfo.go` is not part of this model. The
behaviour follows the package's tests in `helpers/osinfo_test.go`. Where the
tests are silent, the model makes its own choices, and "Left out" lists them.

## Model

| member | source | states |
|---|---|---|
| ReleaseID.String | helpers/osinfo_test.go:17-32 | a code has a non-empty name exactly when it is registered; a non-empty name is a table entry in canonical form (lower case, no white space); the lookup is total |
| ReleaseID.StringExamples | helpers/osinfo_test.go:17-32 | code 1 names `ubuntu`; code 10 is unregistered and names `""` |
| ReleaseID.NamesWellFormed | helpers/osinfo_test.go:17-21 | every registered name is canonical and no name is registered twice |
| ReleaseID.ParseID | helpers/osinfo_test.go:85-88 | the reverse lookup answers `UNKNOWN` exactly when the normalised name is not registered; otherwise it answers a registered code whose name is the normalised input |
| ReleaseID.ParseIDOfString | helpers/osinfo_test.go:85-88 | every registered code is recovered from its own name |
| ReleaseID.StringOfParseID | helpers/osinfo_test.go:85-88 | a recognised name, normalised, is the name of the code it finds, and that name leads back to the same code |
| ReleaseID.DebianExample | helpers/osinfo_test.go:45-50 | `debian` is looked up as `DEBIAN`, and `DEBIAN` names `debian` |
| ReleaseID.ParseIDOfNormalize | helpers/osinfo_test.go:85-88 | two names with the same normalised form find the same code |
| ReleaseID.ParseIDIgnoresCase | helpers/osinfo_test.go:85-88 | a name and its lower-cased spelling (`Debian`, `debian`) find the same code |
| ReleaseID.ParseIDIgnoresPadding | helpers/osinfo_test.go:85-88 | any run of white space before a name and any run after it leave the code it finds unchanged |
| ReleaseID.NormalizeCanonical | helpers/osinfo_test.go:85-88 | a canonical name is its own normalised form, so an `ID` value spelled canonically equals the name of its code |
| Errors.Message | helpers/osinfo_test.go:58-81 | an open failure renders as `could not open LIBBPFGO_OSRELEASE_FILE ` followed by the path tried; a kernel-query failure renders as text containing `uname` |
| Errors.OpenMessageNamesPath | helpers/osinfo_test.go:58-63 | two open-failure messages agree exactly when the paths tried agree, so the message carries the path and nothing else |
| OSRelease.FieldOfKey | helpers/osinfo_test.go:85-88 | a key names a field exactly when it is the spelling of a file field; the synthetic kernel-release field is never named by a file key |
| OSRelease.FieldOfKeyOfField | helpers/osinfo_test.go:85-88 | every file field, `OS_ID` among them, is found again from its key |
| OSRelease.ParseLine | helpers/osinfo_test.go:45-50 | a line contributes an assignment only when it is literally `<key>=<value>` for a file field, never for the kernel-release field |
| OSRelease.ParseLineOfAssignment | helpers/osinfo_test.go:45-50 | a line `<key>=<value>` for a file field is read back as exactly that field and value, whatever the value holds |
| OSRelease.SplitAssignment | helpers/osinfo_test.go:45-50 | a line splits exactly when it holds an `=`; the split is at the first `=`: the key holds no `=` and key, `=`, value glue back to the line |
| OSRelease.SplitAssignmentOf | helpers/osinfo_test.go:45-50 | a key free of `=`, then `=`, then any value, splits back into that key and that value |
| OSRelease.Collect | helpers/osinfo_test.go:85-88 | a key is present exactly when some entry assigns it, and its value is the one the last such entry gives |
| OSRelease.ParseOSRelease | helpers/osinfo_test.go:84-88 | the parsed descriptor never holds the kernel-release field |
| OSRelease.LastAssignmentWins | helpers/osinfo_test.go:45-50 | when line `i` assigns a value to a field and no later line assigns that field, the parsed map holds exactly that value |
| OSRelease.UnassignedFieldAbsent | helpers/osinfo_test.go:84-88 | a field that no line assigns is absent from the parsed map |
| OSRelease.CommentLineIgnored | helpers/osinfo_test.go:45-50 | a line starting with `#` never sets a field |
| OSRelease.LineWithoutAssignmentIgnored | helpers/osinfo_test.go:45-50 | a line without `=` never sets a field |
| Helpers.ResolveOSReleaseFilePath | helpers/osinfo_test.go:45-57 | a non-empty override is used verbatim; an empty one falls back to `/etc/os-release`; the resolved path is never empty |
| Helpers.GetOSReleaseFilePath | helpers/osinfo_test.go:84 | the accessor returns the path the facade recorded; `Helpers.GetOSInfo` records the resolved path there |
| Helpers.GetOSReleaseID | helpers/osinfo_test.go:85-86 | on a valid facade the cached code is the reverse lookup of the `ID` value, and `UNKNOWN` when there is no `ID` |
| Helpers.Valid | helpers/osinfo_test.go:85-88 | the facade invariant: on a valid facade a recognised code means an `ID` field is present and the code's name is that value normalised |
| Helpers.FieldValueOfUpdate | helpers/osinfo_test.go:84-88 | storing a value under a field reads back as that value from that field and leaves every other field's reading unchanged |
| Helpers.IDOf | helpers/osinfo_test.go:85-88 | the cached code is the reverse lookup of the `ID` value, or `UNKNOWN` when the descriptor has no `ID` |
| Helpers.GetOSReleaseFieldValue | helpers/osinfo_test.go:84-88 | a present field reads as its stored value; an absent field reads as `""`; the accessor never fails |
| Helpers.GetOSInfo | helpers/osinfo_test.go:66-88 | there is no facade exactly when the resolved path cannot be opened, and then the error is the open message for that path; otherwise the facade records that path and a cached code that agrees with its `ID`; there is no error exactly when the kernel query succeeds; on success the kernel release is stored under `OS_KERNEL_RELEASE`; on failure the error mentions `uname`; every file field reads as the descriptor gives it |
| Helpers.IDAgreesWithField | helpers/osinfo_test.go:85-88 | for a recognised code, its name is the normalised `ID` value, and it equals the `ID` value itself when that is spelled canonically |
| Helpers.GetOSInfoOverridePath | helpers/osinfo_test.go:45-50 | with the override `testdata/os-release` and a descriptor whose last `ID` line is `ID=debian`, discovery succeeds; the path reads back verbatim, the code is `DEBIAN`, and the `ID` field equals `DEBIAN`'s name |
| Helpers.GetOSInfoDefaultPath | helpers/osinfo_test.go:52-57 | with the override empty, discovery uses `/etc/os-release` and either succeeds or reports an error mentioning `uname` |
| Helpers.GetOSInfoMissingFile | helpers/osinfo_test.go:58-63 | an override naming an unopenable file fails with exactly `could not open LIBBPFGO_OSRELEASE_FILE testdata/release` |
| Helpers.CompareOSBaseKernelRelease | helpers/osinfo_test.go:136-161 | the result is invalid exactly when an error comes with it; with no kernel release recorded the base is `""` and is rejected; a malformed recorded release gives invalid with that release's parse error; otherwise a malformed given release gives invalid with its parse error; with both well formed, newer, older and equal are the triple ordering |
| Helpers.CompareParsed | helpers/osinfo_test.go:154-161 | with a recorded base and a given release that both parse, the facade's answer is the comparison of the two versions, without error |
| Helpers.CompareRejected | helpers/osinfo_test.go:136-149 | on any facade, a recorded base that fails to parse makes the answer invalid with that parse error, whatever the given release is |
| Helpers.CompareNumerals | helpers/osinfo_test.go:101-135 | releases spelled as one to three numerals compare as the versions they spell |
| Helpers.CompareRejectedPieces | helpers/osinfo_test.go:136-149 | a base of more than three pieces is rejected with the format error; otherwise a base with a non-numeral piece is rejected with the value error naming the first such piece |
| Helpers.CompareOlderThan | helpers/osinfo_test.go:101-107 | `4.3.2` against base `5.1.1` is older, with no error |
| Helpers.CompareEqual | helpers/osinfo_test.go:108-114 | `5.0` against base `5.0` is equal, with no error |
| Helpers.CompareNewerThan | helpers/osinfo_test.go:115-121 | `4.3.2` against base `3.1.1` is newer, with no error |
| Helpers.CompareNewerThanMissingPatch | helpers/osinfo_test.go:122-128 | `4.3.2` against base `3.1` is newer: the missing patch counts as zero |
| Helpers.CompareNewerThanMissingMinor | helpers/osinfo_test.go:129-135 | `4.3.2` against base `3` is newer: the missing minor and patch count as zero |
| Helpers.CompareTooManyComponents | helpers/osinfo_test.go:136-142 | base `3.0.0.0` is invalid with the message `invalid base kernel version format: 3.0.0.0`, though `4.3.2` is well formed |
| Helpers.CompareTooManyComponentsError | helpers/osinfo_test.go:136-142 | base `3.0.0.0` gives the format error for the base, carrying the base string |
| Helpers.TooManyComponentsMessage | helpers/osinfo_test.go:141 | the format error for base `3.0.0.0` reads `invalid base kernel version format: 3.0.0.0` |
| Helpers.CompareNotANumber | helpers/osinfo_test.go:143-149 | base `X.5.4` is invalid with the message `invalid base kernel version value: X.5.4 issue with: X` |
| Helpers.CompareNotANumberError | helpers/osinfo_test.go:143-149 | base `X.5.4` gives the value error for the base, naming the whole base and its first component `X` |
| Helpers.NotANumberMessage | helpers/osinfo_test.go:148 | the value error for base `X.5.4` and component `X` reads `invalid base kernel version value: X.5.4 issue with: X` |
| KernelVersion.ParseRelease | helpers/osinfo_test.go:101-149 | a format error happens exactly when there are four or more components; otherwise a value error names the first non-numeral component, a whole dot-free token; success happens exactly when there are at most three components, all numerals; each component value is that numeral's value, or zero when the component is missing; errors carry the role and the whole release |
| KernelVersion.ParseIgnoresRole | helpers/osinfo_test.go:136-161 | whether a release parses, and to what, does not depend on whether it is the base or the given release |
| KernelVersion.ParseJoin | helpers/osinfo_test.go:101-135 | one to three numerals joined by dots parse to their values, zero-padded |
| KernelVersion.RejectJoin | helpers/osinfo_test.go:136-149 | dot-free pieces joined by dots are rejected with the format error beyond three pieces, else with the value error naming the first non-numeral piece |
| KernelVersion.ParseFormatRelease | helpers/osinfo_test.go:101-135 | every version triple is reachable: its canonical dotted spelling parses back to it |
| KernelVersion.PadWithZero | helpers/osinfo_test.go:122-135 | appending `.0` to a well-formed release of one or two components does not change what it parses to |
| KernelVersion.CompareComponents | helpers/osinfo_test.go:101-121 | the component scan answers newer, older or equal exactly as the component sequences are ordered lexicographically, and never invalid |
| KernelVersion.CompareVersions | helpers/osinfo_test.go:101-121 | two versions compare as newer, older or equal exactly as the triples are ordered, major first |
| KernelVersion.LexLessIsVersionLess | helpers/osinfo_test.go:101-121 | the lexicographic order of component sequences is the major-minor-patch order |
| KernelVersion.LexLessTail | helpers/osinfo_test.go:101-121 | sequences with equal heads are ordered as their tails are |
| KernelVersion.CompareKernelRelease | helpers/osinfo_test.go:101-161 | invalid exactly when an error comes with it; a malformed base gives the base's error; else a malformed given release gives its error; else newer, older and equal follow the triple ordering |
| KernelVersion.CompareReflexive | helpers/osinfo_test.go:108-114 | a well-formed release compares equal to itself, without error |
| KernelVersion.CompareAntisymmetric | helpers/osinfo_test.go:101-121 | swapping two well-formed releases swaps newer and older and keeps equal |
| KernelVersion.CompareTransitive | helpers/osinfo_test.go:101-121 | newer is transitive |
| KernelVersion.PaddingInvisible | helpers/osinfo_test.go:122-135 | appending `.0` to a short well-formed release changes no comparison on either side |

## Left out

- File access and the environment. The value of `LIBBPFGO_OSRELEASE_FILE`, the files that can be opened and their contents are a `Host` value passed in. An unset variable and an empty one are both `""`. Errors from reading an opened file are not modelled.
- The kernel query. Its outcome, a release string or a failure reason, is part of `Host`. The model fixes only that a failure's message contains `uname`; the rest of the wording (`could not determine uname release: <cause>`) is a placeholder.
- Descriptor quoting and escaping. Outer single or double quotes, the escapes inside double quotes, stripping a trailing carriage return, and trailing white space on unquoted values are not modelled. Values are taken literally after the first `=`.
- The registry table beyond the two entries the tests fix. The tests fix only code 1 = `ubuntu` and the presence of `DEBIAN`. The rest of the table (`fedora`, `arch`, `debian` as 4, `centos`, `stream`, `alma`, `rhel`) is the model's own assumption, not something the tests show. Any other distribution name is unregistered here. Apart from the two examples, the lemmas about the registry rely only on the names being distinct and canonical.
- ReleaseID.ParseID: lower-casing is ASCII only, and white space is the six ASCII white-space characters (space, tab, newline, carriage return, vertical tab, form feed). Unicode case folding and Unicode white space are not modelled.
- KernelVersion.ParseRelease: a component must be one or more ASCII digits. A sign and a build tag such as `-generic` are rejected. Components are unbounded naturals: any limit on the size of a component is not modelled.
- KernelVersion.CompareKernelRelease: the base release is parsed completely before the given one. When both are malformed, the base's error is reported. The tests fix only the case where the given release is well formed.
- Helpers.GetOSInfo: when the file cannot be opened, the model returns no facade, only the error. The tests do not look at the facade in that case, so this is the model's own choice. The accessors are modelled only on facades.
- Go's `t.Run` and testify plumbing.
