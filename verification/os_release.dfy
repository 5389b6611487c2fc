/** The OSReleaseField registry and the OS-release descriptor parser, reduced
    to plain `KEY=VALUE` lines. */
module OSRelease {

  import opened Wrappers
  import opened Text

  /** The recognised keys of the descriptor, plus the synthetic kernel release,
      which never comes from the file. */
  datatype OSReleaseField =
    | OS_NAME
    | OS_ID
    | OS_ID_LIKE
    | OS_PRETTY_NAME
    | OS_VERSION
    | OS_VERSION_ID
    | OS_VERSION_CODENAME
    | OS_BUILD_ID
    | OS_ANSI_COLOR
    | OS_HOME_URL
    | OS_SUPPORT_URL
    | OS_BUG_REPORT_URL
    | OS_KERNEL_RELEASE

  /** The key spelling of a field. */
  function Key(f: OSReleaseField): string {
    match f
    case OS_NAME => "NAME"
    case OS_ID => "ID"
    case OS_ID_LIKE => "ID_LIKE"
    case OS_PRETTY_NAME => "PRETTY_NAME"
    case OS_VERSION => "VERSION"
    case OS_VERSION_ID => "VERSION_ID"
    case OS_VERSION_CODENAME => "VERSION_CODENAME"
    case OS_BUILD_ID => "BUILD_ID"
    case OS_ANSI_COLOR => "ANSI_COLOR"
    case OS_HOME_URL => "HOME_URL"
    case OS_SUPPORT_URL => "SUPPORT_URL"
    case OS_BUG_REPORT_URL => "BUG_REPORT_URL"
    case OS_KERNEL_RELEASE => "KERNEL_RELEASE"
  }

  /** The fields the parser may populate: every field but the synthetic one. */
  const FileFields: seq<OSReleaseField> := [
    OS_NAME, OS_ID, OS_ID_LIKE, OS_PRETTY_NAME, OS_VERSION, OS_VERSION_ID,
    OS_VERSION_CODENAME, OS_BUILD_ID, OS_ANSI_COLOR, OS_HOME_URL,
    OS_SUPPORT_URL, OS_BUG_REPORT_URL]

  lemma FileFieldsComplete(f: OSReleaseField)
    ensures f in FileFields <==> f != OS_KERNEL_RELEASE
  {
  }

  /** Distinct fields have distinct keys. */
  lemma KeyInjective(f: OSReleaseField, g: OSReleaseField)
    requires Key(f) == Key(g)
    ensures f == g
  {
  }

  /** The first field of `fields` spelled `key`, if any. */
  function FindField(fields: seq<OSReleaseField>, key: string): (r: Option<OSReleaseField>)
    ensures r.Some? ==> r.value in fields && Key(r.value) == key
    ensures r.None? ==> forall i :: 0 <= i < |fields| ==> Key(fields[i]) != key
  {
    if |fields| == 0 then None
    else if Key(fields[0]) == key then Some(fields[0])
    else FindField(fields[1..], key)
  }

  /** The file field a key names; `None` for an unknown key and for the
      synthetic kernel-release key. */
  function FieldOfKey(key: string): (r: Option<OSReleaseField>)
    ensures r.Some? ==> Key(r.value) == key && r.value != OS_KERNEL_RELEASE
    ensures r.None? ==> forall f :: f != OS_KERNEL_RELEASE ==> Key(f) != key
  {
    var r := FindField(FileFields, key);
    assert r.None? ==> forall f :: f != OS_KERNEL_RELEASE ==> Key(f) != key by {
      forall f | f != OS_KERNEL_RELEASE && r.None?
        ensures Key(f) != key
      {
        FileFieldsComplete(f);
        var i :| 0 <= i < |FileFields| && FileFields[i] == f;
      }
    }
    r
  }

  /** Every file field is found again from its key. */
  lemma FieldOfKeyOfField(f: OSReleaseField)
    requires f != OS_KERNEL_RELEASE
    ensures FieldOfKey(Key(f)) == Some(f)
  {
    var r := FieldOfKey(Key(f));
    if r.Some? {
      KeyInjective(r.value, f);
    }
  }

  /** Splits a line at its first `=` into key and value; `None` when there is
      no `=` at all. */
  function SplitAssignment(line: string): (r: Option<(string, string)>)
    ensures r.None? <==> '=' !in line
    ensures r.Some? ==> line == r.value.0 + "=" + r.value.1 && '=' !in r.value.0
    decreases |line|
  {
    if |line| == 0 then None
    else if line[0] == '=' then Some(("", line[1..]))
    else
      match SplitAssignment(line[1..])
      case None => None
      case Some((k, v)) =>
        assert line == [line[0]] + line[1..];
        Some(([line[0]] + k, v))
  }

  /** What one line of the descriptor contributes: a recognised key and its
      value, or nothing for a blank line, a comment, a line without `=`, or an
      unknown key. */
  function ParseLine(line: string): (r: Option<(OSReleaseField, string)>)
    ensures r.Some? ==> r.value.0 != OS_KERNEL_RELEASE
    ensures r.Some? ==> line == Key(r.value.0) + "=" + r.value.1
  {
    match SplitAssignment(line)
    case None => None
    case Some((key, value)) =>
      match FieldOfKey(key)
      case None => None
      case Some(f) => Some((f, value))
  }

  /** A key free of `=` followed by `=` and a value splits back into that key
      and that value, whatever the value holds. */
  lemma {:induction false} SplitAssignmentOf(key: string, value: string)
    requires '=' !in key
    ensures SplitAssignment(key + "=" + value) == Some((key, value))
    decreases |key|
  {
    var line := key + "=" + value;
    if |key| == 0 {
      assert line[1..] == value;
    } else {
      assert line[0] == key[0];
      assert line[1..] == key[1..] + "=" + value;
      SplitAssignmentOf(key[1..], value);
      assert [key[0]] + key[1..] == key;
    }
  }

  /** A line that assigns a recognised key is read back as that assignment. */
  lemma ParseLineOfAssignment(f: OSReleaseField, value: string)
    requires f != OS_KERNEL_RELEASE
    ensures ParseLine(Key(f) + "=" + value) == Some((f, value))
  {
    assert '=' !in Key(f);
    SplitAssignmentOf(Key(f), value);
    FieldOfKeyOfField(f);
  }

  /** Entry `e` assigns key `k`. */
  predicate Assigns<K(==,!new), V>(e: Option<(K, V)>, k: K) {
    e.Some? && e.value.0 == k
  }

  /** Entry `i` is the last entry of `entries` that assigns `k`. */
  predicate LastAssigns<K(==,!new), V>(entries: seq<Option<(K, V)>>, k: K, i: int) {
    && 0 <= i < |entries|
    && Assigns(entries[i], k)
    && forall j :: i < j < |entries| ==> !Assigns(entries[j], k)
  }

  /** Entry `i` is the last entry of `entries` that assigns `k`, and it assigns
      `v`. */
  predicate LastAssignsValue<K(==,!new), V(==)>(entries: seq<Option<(K, V)>>, k: K, i: int, v: V) {
    LastAssigns(entries, k, i) && entries[i].value.1 == v
  }

  /** There is only one last assignment of a key. */
  lemma LastAssignsUnique<K(!new), V>(entries: seq<Option<(K, V)>>, k: K, i: int, j: int)
    requires LastAssigns(entries, k, i) && LastAssigns(entries, k, j)
    ensures i == j
  {
  }

  /** Gathers assignments into a map, first to last, so that the last
      assignment of a key wins. A key is present exactly when some entry assigns
      it, and its value is the one the last such entry gives. */
  function Collect<K(==,!new), V>(entries: seq<Option<(K, V)>>): (m: map<K, V>)
    ensures forall k :: k in m <==> exists i :: 0 <= i < |entries| && Assigns(entries[i], k)
    ensures forall k :: k in m ==> exists i :: LastAssignsValue(entries, k, i, m[k])
    decreases |entries|
  {
    if |entries| == 0 then map[]
    else
      var init := entries[..|entries| - 1];
      var m0 := Collect(init);
      var last := |entries| - 1;
      assert forall i :: 0 <= i < last ==> entries[i] == init[i];
      match entries[last]
      case None =>
        forall k | k in m0
          ensures exists i :: LastAssignsValue(entries, k, i, m0[k])
        {
          var i :| LastAssignsValue(init, k, i, m0[k]);
          assert LastAssignsValue(entries, k, i, m0[k]);
        }
        m0
      case Some((g, value)) =>
        var m := m0[g := value];
        assert LastAssignsValue(entries, g, last, value);
        forall k | k in m
          ensures exists i :: LastAssignsValue(entries, k, i, m[k])
        {
          if k != g {
            var i :| LastAssignsValue(init, k, i, m0[k]);
            assert LastAssignsValue(entries, k, i, m[k]);
          }
        }
        m
  }

  /** What each line contributes, in order. */
  function ParseEach(lines: seq<string>): (entries: seq<Option<(OSReleaseField, string)>>)
    ensures |entries| == |lines|
    ensures forall i :: 0 <= i < |lines| ==> entries[i] == ParseLine(lines[i])
  {
    seq(|lines|, i requires 0 <= i < |lines| => ParseLine(lines[i]))
  }

  /** The field map of a sequence of lines: the last assignment of a key wins,
      and the synthetic kernel-release field is never set. */
  function ParseLines(lines: seq<string>): (m: map<OSReleaseField, string>)
    ensures OS_KERNEL_RELEASE !in m
  {
    var entries := ParseEach(lines);
    assert !exists i :: 0 <= i < |entries| && Assigns(entries[i], OS_KERNEL_RELEASE);
    Collect(entries)
  }

  /** The descriptor's text, split into lines and parsed. */
  function ParseOSRelease(content: string): (m: map<OSReleaseField, string>)
    ensures OS_KERNEL_RELEASE !in m
  {
    ParseLines(Split(content, '\n'))
  }

  /** Comment lines never set a field: no key begins with `#`. */
  lemma CommentLineIgnored(line: string)
    requires |line| > 0 && line[0] == '#'
    ensures ParseLine(line).None?
  {
  }

  /** A line without `=` never sets a field. */
  lemma LineWithoutAssignmentIgnored(line: string)
    requires '=' !in line
    ensures ParseLine(line).None?
  {
  }

  /** When line `i` assigns `value` to a recognised key and no later line sets
      that key again, the parsed map holds exactly that value. */
  lemma LastAssignmentWins(lines: seq<string>, i: nat, f: OSReleaseField, value: string)
    requires i < |lines| && lines[i] == Key(f) + "=" + value
    requires f != OS_KERNEL_RELEASE
    requires forall j :: i < j < |lines| ==> !Assigns(ParseLine(lines[j]), f)
    ensures f in ParseLines(lines) && ParseLines(lines)[f] == value
  {
    ParseLineOfAssignment(f, value);
    var entries := ParseEach(lines);
    assert entries[i] == Some((f, value));
    assert LastAssigns(entries, f, i);
    var m := Collect(entries);
    var k :| LastAssignsValue(entries, f, k, m[f]);
    LastAssignsUnique(entries, f, i, k);
  }

  /** A key no line assigns is absent from the parsed map. */
  lemma UnassignedFieldAbsent(lines: seq<string>, f: OSReleaseField)
    requires forall j :: 0 <= j < |lines| ==> !Assigns(ParseLine(lines[j]), f)
    ensures f !in ParseLines(lines)
  {
    var entries := ParseEach(lines);
    assert forall j :: 0 <= j < |entries| ==> !Assigns(entries[j], f);
  }
}
