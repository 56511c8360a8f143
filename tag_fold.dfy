/**
 * The tag fold shared by both `checkVersion` variants: the first line of the
 * repository's tag list is cut at every `"name":"v` marker, each piece after
 * the first is read as `major.minor`, and the greatest version in
 * lexicographic order is kept, starting from a floor.
 */
module TagFold {
  import opened Wrappers
  import opened JavaStrings

  /** The marker in front of every tag name in the response. */
  const Marker: string := "\"name\":\"v"
  /** The text that ends a tag name's JSON value. */
  const FieldEnd: string := "\",\""

  /** A `(major, minor)` pair. */
  datatype Version = Version(major: int, minor: int)

  /**
   * A tag piece as far as it parses: the major number, and the minor number
   * when there is a second part and it parses (it is only read when needed).
   */
  datatype Tag = Tag(major: int, minor: Option<int>)

  /** Lexicographic order on versions. */
  predicate LexLeq(a: Version, b: Version) {
    a.major < b.major || (a.major == b.major && a.minor <= b.minor)
  }

  function Max(a: int, b: int): int {
    if a < b then b else a
  }

  /**
   * `piece.split("\",\"")[0].split("\\.")` then `parseInt` of part 0; `None`
   * when that throws (an empty array or a malformed number).
   */
  function ParseTag(piece: string): Option<Tag> {
    var fields := Split(piece, FieldEnd);
    if |fields| == 0 then None
    else
      var parts := Split(fields[0], ".");
      if |parts| == 0 then None
      else match ParseInt(parts[0])
        case None => None
        case Some(major) => Some(Tag(major, if |parts| >= 2 then ParseInt(parts[1]) else None))
  }

  /**
   * One iteration: a larger major takes the tag's minor, an equal major keeps
   * the larger minor, a smaller major changes nothing; `None` when the minor
   * is needed and missing.
   */
  function Step(best: Version, tag: Tag): (r: Option<Version>)
    ensures r.None? <==> tag.major >= best.major && tag.minor.None?
    ensures r.Some? ==> LexLeq(best, r.value) && Covers(tag, r.value)
    ensures r.Some? ==> r.value == best || (tag.minor.Some? && r.value == Version(tag.major, tag.minor.value))
  {
    if tag.major > best.major then
      if tag.minor.None? then None else Some(Version(tag.major, tag.minor.value))
    else if tag.major == best.major then
      if tag.minor.None? then None else Some(Version(best.major, Max(best.minor, tag.minor.value)))
    else Some(best)
  }

  /** `v` is at least the tag: in major, and lexicographically when the tag has a minor. */
  predicate Covers(tag: Tag, v: Version) {
    tag.major <= v.major && (tag.minor.Some? ==> LexLeq(Version(tag.major, tag.minor.value), v))
  }

  /** One iteration on a parse result; `None` (a piece that did not parse) throws. */
  function StepTag(best: Version, tag: Option<Tag>): Option<Version> {
    if tag.None? then None else Step(best, tag.value)
  }

  /** The parse result of each piece. */
  function Tags(pieces: seq<string>): (tags: seq<Option<Tag>>)
    ensures |tags| == |pieces|
  {
    if pieces == [] then [] else [ParseTag(pieces[0])] + Tags(pieces[1..])
  }

  /** The loop over the parsed pieces, from the first to the last; `None` when an iteration throws. */
  function Fold(best: Version, tags: seq<Option<Tag>>): Option<Version>
    decreases |tags|
  {
    if tags == [] then Some(best)
    else match StepTag(best, tags[0])
      case None => None
      case Some(next) => Fold(next, tags[1..])
  }

  /** One turn of the loop: the fold from position `j` on. */
  lemma FoldAt(best: Version, tags: seq<Option<Tag>>, j: nat)
    requires j < |tags|
    ensures Fold(best, tags[j..]) ==
      if StepTag(best, tags[j]).None? then None else Fold(StepTag(best, tags[j]).value, tags[j + 1..])
  {
    assert tags[j..][1..] == tags[j + 1..];
  }

  /** The parse result at each position. */
  lemma {:induction false} TagsAt(pieces: seq<string>, k: nat)
    requires k < |pieces|
    ensures |Tags(pieces)| == |pieces|
    ensures Tags(pieces)[k] == ParseTag(pieces[k])
    decreases k
  {
    if k > 0 {
      TagsAt(pieces[1..], k - 1);
    }
  }

  /**
   * `versions[i].split("\",\"")[0].split("\\.")` and `parseInt` of its first
   * part, with the second part parsed as well when there is one; `None` when
   * that throws. The tag is the one the fold reads for piece `i`: its
   * specification is `ParseTag`, whose meaning `ParseTagOfName` states.
   */
  method ReadTag(versions: seq<string>, i: nat) returns (tag: Option<Tag>)
    requires 1 <= i < |versions|
    ensures |Tags(TagPieces(versions))| == |versions| - 1
    ensures tag == Tags(TagPieces(versions))[i - 1]
  {
    TagsAt(TagPieces(versions), i - 1);
    var fields := Split(versions[i], FieldEnd);
    if |fields| == 0 {
      return None;
    }
    var tmp := Split(fields[0], ".");
    if |tmp| == 0 {
      return None;
    }
    var num := ParseInt(tmp[0]);
    if num.None? {
      return None;
    }
    var minor := if |tmp| < 2 then None else ParseInt(tmp[1]);
    return Some(Tag(num.value, minor));
  }

  /** The pieces the loop visits: those after the first. */
  function TagPieces(versions: seq<string>): seq<string> {
    if |versions| <= 1 then [] else versions[1..]
  }

  /**
   * The version `checkVersion` settles on for the response's first line
   * (`None` for a `null` line or an exception).
   */
  function LatestVersion(line: Option<string>, floor: Version): Option<Version> {
    if line.None? then None else Fold(floor, Tags(TagPieces(Split(line.value, Marker))))
  }

  /** `"v" + major + "." + minor`. */
  function FormatVersion(v: Version): string {
    "v" + IntToString(v.major) + "." + IntToString(v.minor)
  }

  /** The string `checkVersion` returns. */
  function FormatResult(v: Option<Version>): (r: Option<string>)
    ensures r.None? <==> v.None?
  {
    if v.None? then None else Some(FormatVersion(v.value))
  }

  /** The tag has exactly major and minor `v`. */
  predicate Attains(tag: Option<Tag>, v: Version) {
    tag == Some(Tag(v.major, Some(v.minor)))
  }

  /** The piece parsed and `v` covers its tag. */
  predicate Bounds(tag: Option<Tag>, v: Version) {
    tag.Some? && Covers(tag.value, v)
  }

  /** A successful fold ends at or above where it started and covers every tag. */
  lemma {:induction false} FoldUpperBound(best: Version, tags: seq<Option<Tag>>)
    requires Fold(best, tags).Some?
    ensures LexLeq(best, Fold(best, tags).value)
    ensures forall k :: 0 <= k < |tags| ==> Bounds(tags[k], Fold(best, tags).value)
    decreases |tags|
  {
    if tags != [] {
      var next := StepTag(best, tags[0]).value;
      FoldUpperBound(next, tags[1..]);
      forall k | 1 <= k < |tags| ensures Bounds(tags[k], Fold(best, tags).value) {
        assert tags[k] == tags[1..][k - 1];
      }
    }
  }

  /** A successful fold ends at its start or at a version some tag names in full. */
  lemma {:induction false} FoldAttained(best: Version, tags: seq<Option<Tag>>)
    requires Fold(best, tags).Some?
    ensures Fold(best, tags).value == best || exists k :: 0 <= k < |tags| && Attains(tags[k], Fold(best, tags).value)
    decreases |tags|
  {
    if tags != [] {
      var next := StepTag(best, tags[0]).value;
      FoldAttained(next, tags[1..]);
      var v := Fold(best, tags).value;
      if v != next {
        var k :| 0 <= k < |tags[1..]| && Attains(tags[1..][k], v);
        assert tags[k + 1] == tags[1..][k];
      } else if v != best {
        assert Attains(tags[0], v);
      }
    }
  }

  /** Every tag parsed with both a major and a minor. */
  predicate Complete(tag: Option<Tag>) {
    tag.Some? && tag.value.minor.Some?
  }

  /** When every piece names a full `major.minor` tag, the fold cannot throw. */
  lemma {:induction false} FoldTotal(best: Version, tags: seq<Option<Tag>>)
    requires forall k :: 0 <= k < |tags| ==> Complete(tags[k])
    ensures Fold(best, tags).Some?
    decreases |tags|
  {
    if tags != [] {
      FoldTotal(StepTag(best, tags[0]).value, tags[1..]);
    }
  }

  /**
   * When every tag is complete, the fold finishes with the lexicographic
   * maximum of the start and the tags: it is above all of them and equal to
   * one of them.
   */
  lemma FoldIsLexMax(best: Version, tags: seq<Option<Tag>>)
    requires forall k :: 0 <= k < |tags| ==> Complete(tags[k])
    ensures Fold(best, tags).Some?
    ensures var v := Fold(best, tags).value;
      && LexLeq(best, v)
      && (forall k :: 0 <= k < |tags| ==> Complete(tags[k]) && LexLeq(Version(tags[k].value.major, tags[k].value.minor.value), v))
      && (v == best || exists k :: 0 <= k < |tags| && Attains(tags[k], v))
  {
    FoldTotal(best, tags);
    FoldUpperBound(best, tags);
    FoldAttained(best, tags);
  }

  /**
   * The order of the tags does not change the result: two orders of the same
   * tags that both finish give the same version.
   */
  lemma FoldOrderIndependent(best: Version, a: seq<Option<Tag>>, b: seq<Option<Tag>>)
    requires multiset(a) == multiset(b)
    requires Fold(best, a).Some? && Fold(best, b).Some?
    ensures Fold(best, a) == Fold(best, b)
  {
    FoldBelow(best, a, b);
    FoldBelow(best, b, a);
  }

  /** The result for `a` is at most the result for any order `b` of the same tags. */
  lemma FoldBelow(best: Version, a: seq<Option<Tag>>, b: seq<Option<Tag>>)
    requires multiset(a) == multiset(b)
    requires Fold(best, a).Some? && Fold(best, b).Some?
    ensures LexLeq(Fold(best, a).value, Fold(best, b).value)
  {
    var v, w := Fold(best, a).value, Fold(best, b).value;
    FoldAttained(best, a);
    FoldUpperBound(best, b);
    if v != best {
      var k :| 0 <= k < |a| && Attains(a[k], v);
      assert a[k] in multiset(b);
      var j :| 0 <= j < |b| && b[j] == a[k];
      assert Bounds(b[j], w);
    }
  }

  /** A response without the marker gives the floor. */
  lemma NoMarkerGivesFloor(line: string, floor: Version)
    requires forall i: nat :: !MatchAt(line, Marker, i)
    ensures LatestVersion(Some(line), floor) == Some(floor)
  {
    if line != "" {
      SplitAllNoMatch(line, Marker);
    }
  }

  /** The result's major number never drops below the floor's. */
  lemma LatestAtLeastFloor(line: Option<string>, floor: Version)
    requires LatestVersion(line, floor).Some?
    ensures LexLeq(floor, LatestVersion(line, floor).value)
    ensures LatestVersion(line, floor).value.major >= floor.major
  {
    FoldUpperBound(floor, Tags(TagPieces(Split(line.value, Marker))));
  }

  /** The text before the first `","` is the first field. */
  lemma FirstField(name: string, rest: string)
    requires name != ""
    requires forall k :: 0 <= k < |name| ==> name[k] != '"'
    ensures |Split(name + FieldEnd + rest, FieldEnd)| >= 1
    ensures Split(name + FieldEnd + rest, FieldEnd)[0] == name
  {
    SplitAllFirst(name, FieldEnd, rest);
    var pieces := SplitAll(name + FieldEnd + rest, FieldEnd);
    assert pieces[0] == name;
    DropTrailingEmptyKeeps(pieces, 0);
  }

  /** `a.b…` split at `.` starts with `a` and `b` when neither holds a `.`. */
  lemma FirstTwoParts(a: string, b: string, more: string)
    requires |a| >= 1 && |b| >= 1
    requires forall i :: 0 <= i < |a| ==> a[i] != '.'
    requires forall i :: 0 <= i < |b| ==> b[i] != '.'
    requires more == "" || more[0] == '.'
    ensures |Split(a + "." + b + more, ".")| >= 2
    ensures Split(a + "." + b + more, ".")[0] == a && Split(a + "." + b + more, ".")[1] == b
  {
    assert a + "." + b + more == a + "." + (b + more);
    SplitAllFirst(a, ".", b + more);
    if more == "" {
      assert b + more == b;
      NoMatchWithoutFirstChar(b, ".");
      SplitAllNoMatch(b, ".");
    } else {
      assert b + more == b + "." + more[1..];
      SplitAllFirst(b, ".", more[1..]);
    }
    var pieces := SplitAll(a + "." + b + more, ".");
    assert pieces[0] == a && pieces[1] == b;
    DropTrailingEmptyKeeps(pieces, 1);
  }

  /**
   * A tag written as `M.m`, optionally followed by more `.`-parts, then the
   * end of the JSON value, parses back to `(M, m)`: only the text before the
   * first `","` is read and parts after the second are ignored.
   */
  lemma ParseTagOfName(major: int, minor: int, more: string, rest: string)
    requires MinInt <= major <= MaxInt && MinInt <= minor <= MaxInt
    requires more == "" || more[0] == '.'
    requires forall i :: 0 <= i < |more| ==> more[i] != '"'
    ensures ParseTag(IntToString(major) + "." + IntToString(minor) + more + FieldEnd + rest) == Some(Tag(major, Some(minor)))
  {
    var a, b := IntToString(major), IntToString(minor);
    var name := a + "." + b + more;
    assert forall k :: 0 <= k < |a| ==> a[k] != '.' && a[k] != '"';
    assert forall k :: 0 <= k < |b| ==> b[k] != '.' && b[k] != '"';
    assert forall k :: 0 <= k < |name| ==> name[k] != '"';
    FirstField(name, rest);
    FirstTwoParts(a, b, more);
    ParseIntToString(major);
    ParseIntToString(minor);
  }
}
