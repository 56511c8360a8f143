/**
 * The version check of `dev.roanh.util.Util`: the fold over the tag list
 * with floor `1.0`, and the label text shown for its result.
 */
module DevUtil {
  import opened Wrappers
  import opened JavaStrings
  import opened TagFold

  /** The version the fold starts from. */
  const Floor: Version := Version(1, 0)

  /** The label text used when no default is given. */
  const DefaultLabel: string := "unknown"

  /**
   * `checkVersion(user, repository)` once the first line of the response
   * has been read; `line` is `None` when `readLine` returned `null`, and the
   * result is `None` where the method returns `null`.
   */
  method CheckVersion(line: Option<string>) returns (r: Option<string>)
    ensures r == FormatResult(LatestVersion(line, Floor))
  {
    if line.None? {
      return None;
    }
    var versions := Split(line.value, Marker);
    var major := 1;
    var minor := 0;
    var i := 1;
    ghost var tags := Tags(TagPieces(versions));
    ghost var latest := LatestVersion(line, Floor);
    while i < |versions|
      invariant |tags| == if |versions| == 0 then 0 else |versions| - 1
      invariant 1 <= i <= |tags| + 1
      invariant latest == Fold(Version(major, minor), tags[i - 1..])
      decreases |versions| - i
    {
      var tmp := ReadTag(versions, i);
      FoldAt(Version(major, minor), tags, i - 1);
      if tmp.None? {
        return None;
      }
      var num := tmp.value.major;
      if num > major {
        major := num;
        if tmp.value.minor.None? {
          return None;
        }
        minor := tmp.value.minor.value;
      } else if num == major {
        if tmp.value.minor.None? {
          return None;
        }
        minor := Max(minor, tmp.value.minor.value);
      }
      i := i + 1;
    }
    return Some("v" + IntToString(major) + "." + IntToString(minor));
  }

  /** The label text: the version found, or `def` when there is none (`version.orElse(def)`). */
  function Label(version: Option<string>, def: string): string {
    version.GetOr(def)
  }

  /**
   * With the default `"unknown"`, the label tells a failed check apart from
   * a found version, since a found version starts with `v`.
   */
  lemma LabelShowsFailure(line: Option<string>)
    ensures Label(FormatResult(LatestVersion(line, Floor)), DefaultLabel) == DefaultLabel
      <==> LatestVersion(line, Floor).None?
  {
    var v := LatestVersion(line, Floor);
    if v.Some? {
      assert FormatVersion(v.value)[0] == 'v';
    }
  }

  /** A response without any tag gives `"v1.0"`. */
  lemma NoTagsGivesFloor(line: string)
    requires forall i: nat :: !MatchAt(line, Marker, i)
    ensures FormatResult(LatestVersion(Some(line), Floor)) == Some("v1.0")
  {
    NoMarkerGivesFloor(line, Floor);
    assert NatToString(1) == "1" && NatToString(0) == "0";
    assert FormatVersion(Floor) == "v" + "1" + "." + "0" == "v1.0";
  }
}
