/**
 * The Java half of the file selector (`dev.roanh.util.FileSelector`):
 * validating and registering file extensions, combining their native IDs
 * into the mask given to the native open dialog, the type given to the
 * native save dialog, and the suffix rule of the Swing save dialog.
 *
 * Whether the native library is loaded (`initialised`) is a parameter; the
 * native registration call is a function parameter, because the Java code
 * only sees the ID it returns.
 */
module FileSelector {
  import opened Wrappers
  import opened Masks
  import opened JavaStrings
  import NativeFileSelector

  /** The exceptions the modelled operations throw. */
  datatype JavaException = IllegalArgument | NullPointer | IllegalState | TooManyExtensions | IndexOutOfBounds

  /** A Swing `FileNameExtensionFilter`: its description and its extensions as given. */
  datatype ExtensionFilter = ExtensionFilter(description: string, extensions: seq<string>)

  /** A `FileExtension`: its native ID (`0` unless set) and its Swing filter (`null` in native mode). */
  datatype FileExtension = FileExtension(nativeId: Long, filter: Option<ExtensionFilter>)

  /** A Java `String` reference; `None` is `null`. */
  type JString = Option<string>

  /**
   * The extension is rejected in native mode: `null` or `trim().isEmpty()`,
   * stated through `IsBlank` (see `TrimEmptyIffBlank`).
   */
  predicate Blank(e: JString) {
    e.None? || IsBlank(e.value)
  }

  /** The strings of a sequence of non-null references. */
  function Values(es: seq<JString>): (vs: seq<string>)
    requires forall k :: 0 <= k < |es| ==> es[k].Some?
    ensures |vs| == |es| && forall k :: 0 <= k < |es| ==> vs[k] == es[k].value
  {
    if es == [] then [] else Values(es[..|es| - 1]) + [es[|es| - 1].value]
  }

  /** The content of a `StringJoiner` with delimiter `";*."` after adding `exts` (prefix not included). */
  function Joined(exts: seq<string>): string
    requires |exts| >= 1
  {
    if |exts| == 1 then exts[0] else Joined(exts[..|exts| - 1]) + ";*." + exts[|exts| - 1]
  }

  /** Adding one more extension to the joiner. */
  lemma JoinedAppend(added: seq<string>, e: string)
    ensures |added| == 0 ==> Joined(added + [e]) == e
    ensures |added| > 0 ==> Joined(added + [e]) == Joined(added) + ";*." + e
  {
    assert (added + [e])[..|added|] == added;
  }

  /** The native filter string: `new StringJoiner(";*.", "*.", "")` over `exts`. */
  function FilterString(exts: seq<string>): string
    requires |exts| >= 1
  {
    "*." + Joined(exts)
  }

  /** The pattern `*.e` for each extension `e`. */
  function Patterns(exts: seq<string>): (ps: seq<string>)
    ensures |ps| == |exts| && forall k :: 0 <= k < |exts| ==> ps[k] == "*." + exts[k]
  {
    if exts == [] then [] else Patterns(exts[..|exts| - 1]) + ["*." + exts[|exts| - 1]]
  }

  /**
   * The filter string is the `*.e` patterns separated by `;`: splitting it
   * at `;` gives them back, one per extension, when no extension holds a `;`.
   */
  lemma {:induction false} FilterStringPatterns(exts: seq<string>)
    requires |exts| >= 1
    requires forall k, i :: 0 <= k < |exts| && 0 <= i < |exts[k]| ==> exts[k][i] != ';'
    ensures SplitAll(FilterString(exts), ";") == Patterns(exts)
    decreases |exts|
  {
    var first := "*." + exts[0];
    assert forall i :: 0 <= i < |first| ==> first[i] != ';';
    if |exts| == 1 {
      NoMatchWithoutFirstChar(first, ";");
      SplitAllNoMatch(first, ";");
    } else {
      JoinedFront(exts);
      assert FilterString(exts) == first + ";" + FilterString(exts[1..]);
      SplitAllFirst(first, ";", FilterString(exts[1..]));
      FilterStringPatterns(exts[1..]);
      assert Patterns(exts) == [first] + Patterns(exts[1..]);
    }
  }

  /** The joiner's content is the first extension, the delimiter, then the joined rest. */
  lemma {:induction false} JoinedFront(exts: seq<string>)
    requires |exts| >= 2
    ensures Joined(exts) == exts[0] + ";*." + Joined(exts[1..])
    decreases |exts|
  {
    var n := |exts|;
    if n == 2 {
      assert exts[..1] == [exts[0]] && exts[1..] == [exts[1]];
    } else {
      JoinedFront(exts[..n - 1]);
      assert exts[..n - 1][1..] == exts[1..][..n - 2];
    }
  }

  /**
   * What `registerFileExtension(description, extensions...)` returns or
   * throws.  `registerNative(description, filter, defaultExtension)` is the
   * native registration; in Swing mode the `FileNameExtensionFilter`
   * constructor rejects a `null` or empty extension.
   */
  function RegisterSpec(initialised: bool, description: JString, extensions: Option<seq<JString>>,
                        registerNative: (string, string, string) -> Long): Result<FileExtension, JavaException>
  {
    if extensions.None? || |extensions.value| == 0 then Failure(IllegalArgument)
    else if description.None? then Failure(NullPointer)
    else
      var exts := extensions.value;
      if initialised then
        if exists k :: 0 <= k < |exts| && Blank(exts[k]) then Failure(IllegalArgument)
        else
          var id := registerNative(description.value, FilterString(Values(exts)), exts[0].value);
          if id == MinusOne() then Failure(IllegalState)
          else if id == MinusTwo() then Failure(TooManyExtensions)
          else Success(FileExtension(id, None))
      else if exists k :: 0 <= k < |exts| && (exts[k].None? || exts[k].value == "") then Failure(IllegalArgument)
      else Success(FileExtension({}, Some(ExtensionFilter(description.value, Values(exts)))))
  }

  /** `extension == null || extension.trim().isEmpty()`. */
  method Rejects(e: JString) returns (b: bool)
    ensures b <==> Blank(e)
  {
    if e.None? {
      return true;
    }
    TrimEmptyIffBlank(e.value);
    return Trim(e.value) == "";
  }

  /**
   * The loop of native mode: reject a blank extension, otherwise feed each
   * one to the `StringJoiner`; `None` when an extension is blank.
   */
  method JoinExtensions(exts: seq<JString>) returns (r: Option<string>)
    requires |exts| >= 1
    ensures r.None? <==> exists k :: 0 <= k < |exts| && Blank(exts[k])
    ensures r.Some? ==> (forall k :: 0 <= k < |exts| ==> exts[k].Some?) && r.value == FilterString(Values(exts))
  {
    var joined := "";
    ghost var added: seq<string> := [];
    var i := 0;
    while i < |exts|
      invariant 0 <= i <= |exts|
      invariant forall k :: 0 <= k < i ==> !Blank(exts[k])
      invariant |added| == i && forall k :: 0 <= k < i ==> added[k] == exts[k].value
      invariant i > 0 ==> joined == Joined(added)
    {
      var rejected := Rejects(exts[i]);
      if rejected {
        return None;
      }
      JoinedAppend(added, exts[i].value);
      joined := if i == 0 then exts[i].value else joined + ";*." + exts[i].value;
      added := added + [exts[i].value];
      i := i + 1;
    }
    assert added == Values(exts);
    return Some("*." + joined);
  }

  /** `registerFileExtension`. */
  method RegisterFileExtension(initialised: bool, description: JString, extensions: Option<seq<JString>>,
                               registerNative: (string, string, string) -> Long)
    returns (r: Result<FileExtension, JavaException>)
    ensures r == RegisterSpec(initialised, description, extensions, registerNative)
  {
    if extensions.None? || |extensions.value| == 0 {
      return Failure(IllegalArgument);
    }
    if description.None? {
      return Failure(NullPointer);
    }
    var exts := extensions.value;
    if initialised {
      var filter := JoinExtensions(exts);
      if filter.None? {
        return Failure(IllegalArgument);
      }
      var id := registerNative(description.value, filter.value, exts[0].value);
      if id == MinusOne() {
        return Failure(IllegalState);
      } else if id == MinusTwo() {
        return Failure(TooManyExtensions);
      }
      return Success(FileExtension(id, None));
    } else {
      if exists k :: 0 <= k < |exts| && (exts[k].None? || exts[k].value == "") {
        return Failure(IllegalArgument);
      }
      return Success(FileExtension({}, Some(ExtensionFilter(description.value, Values(exts)))));
    }
  }

  /**
   * In native mode, valid arguments and a native ID `1 << k` (any `k < 64`,
   * including the negative `1 << 63`) give an extension carrying that ID,
   * and the native side is given the `*.e1;*.e2…` filter and the first extension.
   */
  lemma RegisterNativeSucceeds(description: string, exts: seq<string>,
                                                  registerNative: (string, string, string) -> Long, k: nat)
    requires |exts| >= 1 && k < 64
    requires forall j :: 0 <= j < |exts| ==> !IsBlank(exts[j])
    requires registerNative(description, FilterString(exts), exts[0]) == Bit(k)
    ensures RegisterSpec(true, Some(description), Some(Wrap(exts)), registerNative) == Success(FileExtension(Bit(k), None))
  {
    BitIsNotErrorCode(k);
    assert Values(Wrap(exts)) == exts;
  }

  /** Non-null references to the elements of `xs`. */
  function Wrap<T>(xs: seq<T>): (refs: seq<Option<T>>)
    ensures |refs| == |xs| && forall k :: 0 <= k < |xs| ==> refs[k] == Some(xs[k])
  {
    seq(|xs|, k requires 0 <= k < |xs| => Some(xs[k]))
  }

  /** `a | b | …` over the IDs, starting from `0`. */
  function MaskOf(ids: seq<Long>): Long {
    if ids == [] then {} else Or(MaskOf(ids[..|ids| - 1]), ids[|ids| - 1])
  }

  /** Bit `i` of the combined mask is set exactly when it is set in one of the IDs. */
  lemma {:induction false} MaskOfBits(ids: seq<Long>, i: nat)
    ensures IsSet(MaskOf(ids), i) <==> exists j :: 0 <= j < |ids| && IsSet(ids[j], i)
  {
    if ids != [] {
      var init := ids[..|ids| - 1];
      MaskOfBits(init, i);
      if IsSet(MaskOf(ids), i) && !IsSet(ids[|ids| - 1], i) {
        var j :| 0 <= j < |init| && IsSet(init[j], i);
        assert ids[j] == init[j];
      }
      if exists j :: 0 <= j < |ids| && IsSet(ids[j], i) {
        var j :| 0 <= j < |ids| && IsSet(ids[j], i);
        if j < |ids| - 1 {
          assert init[j] == ids[j];
        }
      }
    }
  }

  /** The native IDs of the extensions, which must all be non-null. */
  function IdsOf(exts: seq<Option<FileExtension>>): (ids: seq<Long>)
    requires forall k :: 0 <= k < |exts| ==> exts[k].Some?
    ensures |ids| == |exts| && forall k :: 0 <= k < |exts| ==> ids[k] == exts[k].value.nativeId
  {
    if exts == [] then [] else IdsOf(exts[..|exts| - 1]) + [exts[|exts| - 1].value.nativeId]
  }

  /** One more non-null extension ORs its ID into the mask. */
  lemma MaskOfIdsAppend(exts: seq<Option<FileExtension>>, i: nat)
    requires i < |exts|
    requires forall k :: 0 <= k <= i ==> exts[k].Some?
    ensures MaskOf(IdsOf(exts[..i + 1])) == Or(MaskOf(IdsOf(exts[..i])), exts[i].value.nativeId)
  {
    assert exts[..i + 1][..i] == exts[..i];
    var ids := IdsOf(exts[..i + 1]);
    assert ids[..i] == IdsOf(exts[..i]);
  }

  /** The `(types, typec)` that `showFileOpenDialog` passes to the native open dialog, as written. */
  function OpenArgsSpec(extensions: Option<seq<Option<FileExtension>>>): Result<(Long, int), JavaException> {
    if extensions.None? || exists k :: 0 <= k < |extensions.value| && extensions.value[k].None? then Failure(NullPointer)
    else Success((MaskOf(IdsOf(extensions.value)), |extensions.value|))
  }

  /** The native branch of `showFileOpenDialog`: OR the IDs together, count the arguments. */
  method NativeOpenArgs(extensions: Option<seq<Option<FileExtension>>>) returns (r: Result<(Long, int), JavaException>)
    ensures r == OpenArgsSpec(extensions)
  {
    if extensions.None? {
      return Failure(NullPointer);
    }
    var exts := extensions.value;
    var filters: Long := {};
    var i := 0;
    while i < |exts|
      invariant 0 <= i <= |exts|
      invariant forall k :: 0 <= k < i ==> exts[k].Some?
      invariant filters == MaskOf(IdsOf(exts[..i]))
    {
      if exts[i].None? {
        assert extensions.value[i].None?;
        return Failure(NullPointer);
      }
      MaskOfIdsAppend(exts, i);
      filters := Or(filters, exts[i].value.nativeId);
      i := i + 1;
    }
    assert exts[..i] == exts;
    return Success((filters, |exts|));
  }

  /**
   * Extensions whose IDs are `1 << p` for distinct positions `p` give a mask
   * whose set bits are exactly those positions, and the count passed along
   * equals its population count, as the native dialog requires.
   */
  lemma OpenArgsMeetNativeContract(exts: seq<FileExtension>, positions: seq<nat>)
    requires |positions| == |exts|
    requires forall j :: 0 <= j < |exts| ==> positions[j] < 64 && exts[j].nativeId == Bit(positions[j])
    requires forall j, l :: 0 <= j < l < |positions| ==> positions[j] != positions[l]
    ensures OpenArgsSpec(Some(Wrap(exts))) == Success((MaskOf(IdsOf(Wrap(exts))), |exts|))
    ensures Popcount(MaskOf(IdsOf(Wrap(exts)))) == |exts|
    ensures forall i :: IsSet(MaskOf(IdsOf(Wrap(exts))), i) <==> i in positions
  {
    var ids := IdsOf(Wrap(exts));
    assert forall j :: 0 <= j < |ids| ==> ids[j] == Bit(positions[j]);
    MaskOfPositions(ids, positions);
    PopcountIsCardinality(MaskOf(ids));
    forall i ensures IsSet(MaskOf(ids), i) <==> i in positions {
      MaskOfBits(ids, i);
      if IsSet(MaskOf(ids), i) {
        var j :| 0 <= j < |ids| && IsSet(ids[j], i);
        assert positions[j] == i;
      }
      if i in positions {
        var j :| 0 <= j < |positions| && positions[j] == i;
        assert IsSet(ids[j], i);
      }
    }
  }

  /** Distinct positions give a mask with one bit per ID. */
  lemma {:induction false} MaskOfPositions(ids: seq<Long>, positions: seq<nat>)
    requires |positions| == |ids|
    requires forall j :: 0 <= j < |ids| ==> positions[j] < 64 && ids[j] == Bit(positions[j])
    requires forall j, l :: 0 <= j < l < |positions| ==> positions[j] != positions[l]
    ensures |MaskOf(ids)| == |ids|
  {
    if ids != [] {
      var n := |ids| - 1;
      MaskOfPositions(ids[..n], positions[..n]);
      MaskOfBits(ids[..n], positions[n]);
      assert MaskOf(ids) == MaskOf(ids[..n]) + {positions[n]};
    }
  }

  /**
   * As written, passing the same extension twice sends `typec == 2` with
   * only one bit set in `types`, breaking the native loop's contract
   * `typec == popcount(types)`: the loop then runs past bit 63.
   */
  lemma DuplicateExtensionMiscount(e: FileExtension, k: nat)
    requires k < 64 && e.nativeId == Bit(k)
    ensures OpenArgsSpec(Some([Some(e), Some(e)])) == Success((Bit(k), 2))
    ensures Popcount(Bit(k)) == 1
  {
    assert IdsOf([Some(e), Some(e)]) == [Bit(k), Bit(k)];
    assert [Bit(k), Bit(k)][..1] == [Bit(k)];
    assert MaskOf([Bit(k)]) == Bit(k);
    PopcountBit(k);
  }

  /** The open-dialog arguments with the count the native side documents: the number of set bits. */
  function IntendedOpenArgs(extensions: Option<seq<Option<FileExtension>>>): Result<(Long, int), JavaException> {
    match OpenArgsSpec(extensions)
    case Failure(e) => Failure(e)
    case Success(args) => Success((args.0, Popcount(args.0)))
  }

  /**
   * With the intended count, any extensions registered in the native table,
   * repeated or not, meet the native loop's preconditions, and the loop
   * selects each of their filters once, in ascending bit order.
   */
  lemma IntendedOpenArgsMeetNativeContract(exts: seq<FileExtension>, positions: seq<nat>,
                                                              registry: NativeFileSelector.Registry)
    requires |positions| == |exts|
    requires forall j :: 0 <= j < |exts| ==> positions[j] < 64 && exts[j].nativeId == Bit(positions[j])
    requires forall j :: 0 <= j < |exts| ==> registry.Registered(positions[j])
    ensures IntendedOpenArgs(Some(Wrap(exts))).Success?
    ensures var (types, typec) := IntendedOpenArgs(Some(Wrap(exts))).value;
      && typec == Popcount(types)
      && (forall i :: IsSet(types, i) ==> registry.Registered(i))
      && (forall i :: i in SetBits(types) <==> i in positions)
  {
    var types := MaskOf(IdsOf(Wrap(exts)));
    SetBitsBelowExact(types, 64);
    forall i | IsSet(types, i) ensures i in positions && registry.Registered(i) {
      MaskOfBits(IdsOf(Wrap(exts)), i);
      var j :| 0 <= j < |exts| && IsSet(IdsOf(Wrap(exts))[j], i);
      assert positions[j] == i;
    }
    forall i | i in positions ensures IsSet(types, i) {
      var j :| 0 <= j < |positions| && positions[j] == i;
      MaskOfBits(IdsOf(Wrap(exts)), i);
      assert IsSet(IdsOf(Wrap(exts))[j], i);
    }
  }

  /** The `type` that `showFileSaveDialog` passes to the native save dialog; `null` name throws. */
  function NativeSaveArgs(filter: Option<FileExtension>, name: JString): Result<(Long, string), JavaException> {
    if name.None? then Failure(NullPointer)
    else Success((if filter.Some? then filter.value.nativeId else {}, name.value))
  }

  /** With no filter or a registered one, the native save entry point gets a count matching the type. */
  lemma SaveArgsMeetNativeContract(filter: Option<FileExtension>, name: string, k: nat)
    requires k < 64
    requires filter.Some? ==> filter.value.nativeId == Bit(k)
    ensures NativeSaveArgs(filter, Some(name)).Success?
    ensures var t := NativeSaveArgs(filter, Some(name)).value.0;
      && NativeFileSelector.FileSaveArgs(t).1 == Popcount(t)
      && (filter.None? <==> t == {})
  {
    var t := NativeSaveArgs(filter, Some(name)).value.0;
    NativeFileSelector.FileSaveArgsMeetContract(t, k);
  }

  /** The suffix the Swing save dialog enforces: none without a filter, else `"." + lower(first extension)`. */
  function EnforcedSuffix(filter: Option<FileExtension>): Result<string, JavaException> {
    if filter.None? then Success("")
    else if filter.value.filter.None? then Failure(NullPointer)
    else if filter.value.filter.value.extensions == [] then Failure(IndexOutOfBounds)
    else Success("." + Lower(filter.value.filter.value.extensions[0]))
  }

  /** The file name after suffix enforcement: unchanged when its lower-cased form already ends with the suffix. */
  function WithSuffix(fileName: string, suffix: string): string {
    if EndsWith(Lower(fileName), suffix) then fileName else fileName + suffix
  }

  /** The enforced suffix is empty or a dot and a lower-case extension. */
  lemma EnforcedSuffixIsLower(filter: Option<FileExtension>)
    requires EnforcedSuffix(filter).Success?
    ensures Lower(EnforcedSuffix(filter).value) == EnforcedSuffix(filter).value
    ensures filter.None? <==> EnforcedSuffix(filter).value == ""
  {
    if filter.Some? {
      var e := filter.value.filter.value.extensions[0];
      LowerConcat(".", Lower(e));
      LowerIdempotent(e);
    }
  }

  /**
   * For a lower-case suffix, the lower-cased result ends with the suffix, a
   * name that already does is left alone, and enforcing twice is enforcing once.
   */
  lemma WithSuffixLaws(fileName: string, suffix: string)
    requires Lower(suffix) == suffix
    ensures EndsWith(Lower(WithSuffix(fileName, suffix)), suffix)
    ensures EndsWith(Lower(fileName), suffix) ==> WithSuffix(fileName, suffix) == fileName
    ensures WithSuffix(WithSuffix(fileName, suffix), suffix) == WithSuffix(fileName, suffix)
  {
    if !EndsWith(Lower(fileName), suffix) {
      LowerConcat(fileName, suffix);
      var l := Lower(fileName + suffix);
      assert l[|l| - |suffix|..] == suffix;
    }
  }
}
