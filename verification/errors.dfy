/** The errors the helper reports. Their message wording is part of the
    helper's external contract: callers and operators match on it. */
module Errors {

  import opened Text

  /** Which argument of the kernel-version comparator was malformed. */
  datatype Role = Base | Given

  /** The opening words of a format error, which name the malformed argument. */
  function FormatPrefix(role: Role): string {
    match role
    case Base => "invalid base kernel version format: "
    case Given => "invalid given kernel version format: "
  }

  /** The opening words of a value error, which name the malformed argument. */
  function ValuePrefix(role: Role): string {
    match role
    case Base => "invalid base kernel version value: "
    case Given => "invalid given kernel version value: "
  }

  const IssueInfix := " issue with: "

  datatype Error =
    | OpenError(path: string)
      // the resolved OS-release file could not be opened
    | UnameError(cause: string)
      // the running-kernel query failed; `cause` is the host's reason
    | VersionFormatError(role: Role, release: string)
      // a release string has four or more dot-separated components
    | VersionValueError(role: Role, release: string, component: string)
      // a component of a release string is not a decimal numeral

  const OpenPrefix := "could not open LIBBPFGO_OSRELEASE_FILE "
  const UnamePrefix := "could not determine uname release: "

  /** The error's text, as Go's `err.Error()` would render it. */
  function Message(e: Error): (m: string)
    ensures e.OpenError? ==> m == OpenPrefix + e.path
    ensures e.UnameError? ==> Contains(m, "uname")
  {
    match e
    case OpenError(path) => OpenPrefix + path
    case UnameError(cause) =>
      assert OccursAt(UnamePrefix + cause, "uname", 20);
      UnamePrefix + cause
    case VersionFormatError(role, release) => FormatPrefix(role) + release
    case VersionValueError(role, release, component) =>
      ValuePrefix(role) + release + IssueInfix + component
  }

  /** An open-failure message names the path that was tried, and nothing else:
      two such messages agree exactly when the paths do. */
  lemma OpenMessageNamesPath(p: string, q: string)
    ensures Message(OpenError(p)) == Message(OpenError(q)) <==> p == q
  {
    if Message(OpenError(p)) == Message(OpenError(q)) {
      assert p == Message(OpenError(p))[|OpenPrefix|..];
    }
  }
}
