/**
 * The version check of the older `me.roan.util.Util`: the same fold over
 * the tag list with floor `3.0`, written with repeated parsing and a
 * `continue`, and the label text shown for its result.
 */
module LegacyUtil {
  import opened Wrappers
  import opened JavaStrings
  import opened TagFold

  /** The version the fold starts from. */
  const Floor: Version := Version(3, 0)

  /** The label text shown when the check gives `null`. */
  const Unknown: string := "unknown :("

  /**
   * `checkVersion(repository)` once the first line of the response has been
   * read; `line` is `None` when `readLine` returned `null`, and the result
   * is `None` where the method returns `null`.
   */
  method CheckVersion(line: Option<string>) returns (r: Option<string>)
    ensures r == FormatResult(LatestVersion(line, Floor))
  {
    if line.None? {
      return None;
    }
    var versions := Split(line.value, Marker);
    var maxMain := 3;
    var maxSub := 0;
    var i := 1;
    ghost var tags := Tags(TagPieces(versions));
    ghost var latest := LatestVersion(line, Floor);
    while i < |versions|
      invariant |tags| == if |versions| == 0 then 0 else |versions| - 1
      invariant 1 <= i <= |tags| + 1
      invariant latest == Fold(Version(maxMain, maxSub), tags[i - 1..])
      decreases |versions| - i
    {
      var tmp := ReadTag(versions, i);
      FoldAt(Version(maxMain, maxSub), tags, i - 1);
      if tmp.None? {
        return None;
      }
      var main := tmp.value.major;
      if main > maxMain {
        maxMain := main;
        if tmp.value.minor.None? {
          return None;
        }
        maxSub := tmp.value.minor.value;
      } else if main < maxMain {
        i := i + 1;
        continue;
      } else {
        if tmp.value.minor.None? {
          return None;
        }
        if tmp.value.minor.value > maxSub {
          maxSub := tmp.value.minor.value;
        }
      }
      i := i + 1;
    }
    return Some("v" + IntToString(maxMain) + "." + IntToString(maxSub));
  }

  /** The label text: the version found, or `"unknown :("` for `null`. */
  function Label(version: Option<string>): string {
    if version.None? then Unknown else version.value
  }

  /** A found version's major number is at least 3. */
  lemma MajorAtLeastThree(line: Option<string>)
    requires LatestVersion(line, Floor).Some?
    ensures LatestVersion(line, Floor).value.major >= 3
  {
    LatestAtLeastFloor(line, Floor);
  }

  /** The label shows `"unknown :("` exactly when the check fails. */
  lemma LabelShowsFailure(line: Option<string>)
    ensures Label(FormatResult(LatestVersion(line, Floor))) == Unknown <==> LatestVersion(line, Floor).None?
  {
    var v := LatestVersion(line, Floor);
    if v.Some? {
      assert FormatVersion(v.value)[0] == 'v';
    }
  }
}
