/**
 * Reading the application, data and bundle versions out of the lines of
 * a VERSION file: a line `name = 'value'` yields the text after the first
 * `=` (up to a second `=`, if any), stripped of surrounding whitespace and
 * with every quote character removed.
 */
module Versions {
  import opened Results
  import opened Text

  /** The IndexError Python raises when a version line has no `=`. */
  datatype VersionError = NoEquals

  const DataPrefix: string := "__data_version__"
  const BundlePrefix: string := "__bundle_version__"

  /**
   * The value of a version line: the second part of a split at `=`, with
   * surrounding whitespace stripped and every single and double quote removed.
   */
  function ParseVersionValue(line: string): (r: Result<string, VersionError>)
    ensures r.Err? <==> Find(line, "=").None?
    ensures r.Ok? ==> '\'' !in r.value && '"' !in r.value
  {
    var parts := Split(line, "=");
    if |parts| < 2 then Err(NoEquals)
    else
      var unquoted := Remove(Strip(parts[1]), '\'');
      RemoveKeepsAbsent(unquoted, '"', '\'');
      Ok(Remove(unquoted, '"'))
  }

  /**
   * find_app_version: the first line of the file (empty when the file is
   * empty), stripped, then parsed.
   */
  function FindAppVersion(lines: seq<string>): (r: Result<string, VersionError>)
    ensures lines == [] ==> r == Err(NoEquals)
    ensures lines != [] ==> r == ParseVersionValue(Strip(lines[0]))
  {
    var first := if lines == [] then "" else lines[0];
    assert Split("", "=") == [""];
    ParseVersionValue(Strip(first))
  }

  function SomeValue(r: Result<string, VersionError>): Result<Option<string>, VersionError>
  {
    match r
    case Ok(v) => Ok(Some(v))
    case Err(e) => Err(e)
  }

  /** The loop of find_data_version and find_bundle_version, as a function. */
  function PrefixedVersion(lines: seq<string>, prefix: string): Result<Option<string>, VersionError>
  {
    if lines == [] then Ok(None)
    else if StartsWith(lines[0], prefix) then SomeValue(ParseVersionValue(lines[0]))
    else PrefixedVersion(lines[1..], prefix)
  }

  /** Nothing is found exactly when no line starts with the prefix. */
  lemma {:induction false} PrefixedVersionNone(lines: seq<string>, prefix: string)
    ensures PrefixedVersion(lines, prefix) == Ok(None) <==>
      forall i :: 0 <= i < |lines| ==> !StartsWith(lines[i], prefix)
    decreases |lines|
  {
    if lines != [] {
      PrefixedVersionNone(lines[1..], prefix);
      if !StartsWith(lines[0], prefix) {
        if forall i :: 0 <= i < |lines[1..]| ==> !StartsWith(lines[1..][i], prefix) {
          forall i | 0 <= i < |lines| ensures !StartsWith(lines[i], prefix) {
            if i > 0 {
              assert lines[i] == lines[1..][i - 1];
            }
          }
        } else {
          var i :| 0 <= i < |lines[1..]| && StartsWith(lines[1..][i], prefix);
          assert lines[i + 1] == lines[1..][i];
        }
      }
    }
  }

  /** The first line that starts with the prefix decides the result. */
  lemma {:induction false} PrefixedVersionFirst(lines: seq<string>, prefix: string, i: nat)
    requires i < |lines| && StartsWith(lines[i], prefix)
    requires forall j :: 0 <= j < i ==> !StartsWith(lines[j], prefix)
    ensures PrefixedVersion(lines, prefix) == SomeValue(ParseVersionValue(lines[i]))
    decreases i
  {
    if i > 0 {
      assert lines[1..][i - 1] == lines[i];
      forall j | 0 <= j < i - 1 ensures !StartsWith(lines[1..][j], prefix) {
        assert lines[1..][j] == lines[j + 1];
      }
      PrefixedVersionFirst(lines[1..], prefix, i - 1);
    }
  }

  /** Iterates over the lines and returns at the first one that starts with the prefix. */
  method FindPrefixedVersion(lines: seq<string>, prefix: string) returns (r: Result<Option<string>, VersionError>)
    ensures r == PrefixedVersion(lines, prefix)
  {
    var i := 0;
    while i < |lines|
      invariant 0 <= i <= |lines|
      invariant PrefixedVersion(lines, prefix) == PrefixedVersion(lines[i..], prefix)
    {
      assert lines[i..][1..] == lines[i + 1..];
      var line := lines[i];
      if StartsWith(line, prefix) {
        var parts := Split(line, "=");
        if |parts| < 2 {
          return Err(NoEquals);
        }
        return Ok(Some(Remove(Remove(Strip(parts[1]), '\''), '"')));
      }
      i := i + 1;
    }
    r := Ok(None);
  }

  /** find_data_version */
  method FindDataVersion(lines: seq<string>) returns (r: Result<Option<string>, VersionError>)
    ensures r == PrefixedVersion(lines, DataPrefix)
  {
    r := FindPrefixedVersion(lines, DataPrefix);
  }

  /** find_bundle_version */
  method FindBundleVersion(lines: seq<string>) returns (r: Result<Option<string>, VersionError>)
    ensures r == PrefixedVersion(lines, BundlePrefix)
  {
    r := FindPrefixedVersion(lines, BundlePrefix);
  }

  /**
   * The value of any line with an `=` at k, its first: the text from there
   * up to the next `=` at e (or the end of the line), stripped, with every
   * single and double quote removed.
   */
  lemma ParseVersionValueIs(line: string, k: nat, e: nat)
    requires Find(line, "=") == Some(k)
    requires k < e <= |line| && (e == |line| || line[e] == '=')
    requires forall j :: k < j < e ==> line[j] != '='
    ensures ParseVersionValue(line) == Ok(Remove(Remove(Strip(line[k + 1..e]), '\''), '"'))
  {
    SecondPart(line, k, e);
  }

  /** The second part of a split at `=` runs from the first `=` to the next. */
  lemma SecondPart(line: string, k: nat, e: nat)
    requires Find(line, "=") == Some(k)
    requires k < e <= |line| && (e == |line| || line[e] == '=')
    requires forall j :: k < j < e ==> line[j] != '='
    ensures |Split(line, "=")| >= 2 && Split(line, "=")[1] == line[k + 1..e]
  {
    var rest := line[k + 1..];
    assert Split(line, "=") == [line[..k]] + Split(rest, "=");
    assert "="[0] == '=';
    if e == |line| {
      forall j | 0 <= j ensures !OccursAt(rest, "=", j) {
        if j < |rest| {
          assert rest[j] == line[k + 1 + j];
        }
      }
      assert rest == line[k + 1..e];
    } else {
      assert OccursAt(rest, "=", e - k - 1) by {
        assert rest[e - k - 1] == line[e];
      }
      forall j | 0 <= j < e - k - 1 ensures !OccursAt(rest, "=", j) {
        assert rest[j] == line[k + 1 + j];
      }
      FindIsFirst(rest, "=", e - k - 1);
      assert rest[..e - k - 1] == line[k + 1..e];
    }
  }

  /** A line written as `name = 'value'` followed by whitespace. */
  function VersionLine(name: string, value: string, trailing: string): string
  {
    name + " = '" + value + "'" + trailing
  }

  lemma FirstEquals(name: string, value: string, trailing: string)
    requires '=' !in name
    ensures Find(VersionLine(name, value, trailing), "=") == Some(|name| + 1)
  {
    var line := VersionLine(name, value, trailing);
    var k := |name| + 1;
    assert line == name + " =" + (" '" + value + "'" + trailing);
    assert "="[0] == '=';
    assert OccursAt(line, "=", k);
    forall j | 0 <= j < k ensures !OccursAt(line, "=", j) {
      if j < |name| {
        assert line[j] == name[j];
      } else {
        assert line[j] == ' ';
      }
    }
    FindIsFirst(line, "=", k);
  }

  lemma NoEqualsAfter(value: string, trailing: string)
    requires '=' !in value && AllSpace(trailing)
    ensures Split(" '" + value + "'" + trailing, "=") == [" '" + value + "'" + trailing]
  {
    var rest := " '" + value + "'" + trailing;
    assert "="[0] == '=';
    forall j | 0 <= j ensures !OccursAt(rest, "=", j) {
      if j < |rest| {
        if 2 <= j < 2 + |value| {
          assert rest[j] == value[j - 2];
        } else if j >= 3 + |value| {
          assert rest[j] == trailing[j - 3 - |value|];
          assert IsSpace(trailing[j - 3 - |value|]);
        }
      }
    }
  }

  lemma Unquote(value: string)
    requires '\'' !in value && '"' !in value
    ensures Remove(Remove("'" + value + "'", '\''), '"') == value
  {
    RemoveConcat("'" + value, "'", '\'');
    RemoveConcat("'", value, '\'');
    assert Remove("'", '\'') == "";
  }

  /**
   * The value written into a version line is read back, whatever spaces it
   * holds, as long as it contains no quote and no `=`.
   */
  lemma ParseVersionLine(name: string, value: string, trailing: string)
    requires '=' !in name && '=' !in value && '\'' !in value && '"' !in value
    requires AllSpace(trailing)
    ensures ParseVersionValue(VersionLine(name, value, trailing)) == Ok(value)
  {
    var line := VersionLine(name, value, trailing);
    var k := |name| + 1;
    var quoted := "'" + value + "'";
    var rest := " " + quoted + trailing;
    FirstEquals(name, value, trailing);
    assert line[k + 1..] == rest;
    NoEqualsAfter(value, trailing);
    assert Split(line, "=")[1] == rest;
    assert AllSpace(" ");
    StripPadded(" ", quoted, trailing);
    Unquote(value);
  }

  /** A line starting with the file's own name is stripped first, so trailing whitespace does not matter. */
  lemma AppVersionLine(value: string, trailing: string, rest: seq<string>)
    requires '=' !in value && '\'' !in value && '"' !in value
    requires AllSpace(trailing)
    ensures FindAppVersion([VersionLine("__version__", value, trailing)] + rest) == Ok(value)
  {
    assert '=' !in "__version__" && !IsSpace('_');
    FirstLineVersion("__version__", value, trailing, rest);
  }

  lemma FirstLineVersion(name: string, value: string, trailing: string, rest: seq<string>)
    requires name != [] && !IsSpace(name[0]) && '=' !in name
    requires '=' !in value && '\'' !in value && '"' !in value
    requires AllSpace(trailing)
    ensures FindAppVersion([VersionLine(name, value, trailing)] + rest) == Ok(value)
  {
    var line := VersionLine(name, value, trailing);
    var stripped := VersionLine(name, value, "");
    assert line == "" + stripped + trailing;
    assert stripped[0] == name[0] && stripped[|stripped| - 1] == '\'';
    assert AllSpace("");
    StripPadded("", stripped, trailing);
    ParseVersionLine(name, value, "");
    assert ([line] + rest)[0] == line;
  }

  /**
   * In a file of two lines, where only the first starts with n0 and the
   * second starts with n1, each name finds the value of its own line.
   */
  lemma TwoLineFile(l0: string, l1: string, n0: string, n1: string)
    requires StartsWith(l0, n0) && StartsWith(l1, n1) && !StartsWith(l0, n1)
    requires ParseVersionValue(l0).Ok? && ParseVersionValue(l1).Ok?
    ensures PrefixedVersion([l0, l1], n0) == Ok(Some(ParseVersionValue(l0).value))
    ensures PrefixedVersion([l0, l1], n1) == Ok(Some(ParseVersionValue(l1).value))
  {
    PrefixedVersionFirst([l0, l1], n0, 0);
    PrefixedVersionFirst([l0, l1], n1, 1);
  }

  /** The data VERSION file, with its data line first and its bundle line second, yields both versions. */
  lemma DataFileVersions(data: string, bundle: string)
    requires '=' !in data && '\'' !in data && '"' !in data
    requires '=' !in bundle && '\'' !in bundle && '"' !in bundle
    ensures
      var lines := [VersionLine(DataPrefix, data, "\n"), VersionLine(BundlePrefix, bundle, "\n")];
      PrefixedVersion(lines, DataPrefix) == Ok(Some(data)) &&
      PrefixedVersion(lines, BundlePrefix) == Ok(Some(bundle))
  {
    var l0 := VersionLine(DataPrefix, data, "\n");
    var l1 := VersionLine(BundlePrefix, bundle, "\n");
    assert AllSpace("\n");
    ParseVersionLine(DataPrefix, data, "\n");
    ParseVersionLine(BundlePrefix, bundle, "\n");
    VersionLineStarts(DataPrefix, data, "\n");
    VersionLineStarts(BundlePrefix, bundle, "\n");
    DataLineIsNotBundle(data);
    TwoLineFile(l0, l1, DataPrefix, BundlePrefix);
  }

  lemma VersionLineStarts(name: string, value: string, trailing: string)
    ensures StartsWith(VersionLine(name, value, trailing), name)
  {
    assert VersionLine(name, value, trailing)[..|name|] == name;
  }

  lemma DataLineIsNotBundle(data: string)
    ensures !StartsWith(VersionLine(DataPrefix, data, "\n"), BundlePrefix)
  {
    var l0 := VersionLine(DataPrefix, data, "\n");
    assert l0[2] == 'd';
    assert BundlePrefix[2] == 'b';
  }
}
