/**
 * The native (C++) half of the file selector: a growable global table of
 * registered extension filters that hands out one bit per registration,
 * and the loop in `showDialog` that turns a mask of enabled bits back into
 * the array of filters handed to the Windows file dialog.
 *
 * The COM dialog calls and the UTF-16 to UTF-8 conversion are not modelled;
 * allocation success is a parameter.
 */
module NativeFileSelector {
  import opened Wrappers
  import opened Masks

  /** A `COMDLG_FILTERSPEC`: the display name of a filter and its pattern string. */
  datatype FilterSpec = FilterSpec(name: string, spec: string)

  /** A `FILE_TYPE` table entry: the filter and the default extension for it. */
  datatype FileType = FileType(ext: FilterSpec, def: string)

  /** The filter stored in slot `i` of the table (an empty one for a slot that holds none). */
  function SlotExt(table: seq<Option<FileType>>, i: nat): FilterSpec {
    if i < |table| && table[i].Some? then table[i].value.ext else FilterSpec("", "")
  }

  /** The default extension stored in slot `i` of the table (empty for a slot that holds none). */
  function SlotDef(table: seq<Option<FileType>>, i: nat): string {
    if i < |table| && table[i].Some? then table[i].value.def else ""
  }

  /** The filters of the slots `bits` of the table, in the order given. */
  function SpecsOf(table: seq<Option<FileType>>, bits: seq<nat>): (specs: seq<FilterSpec>)
    ensures |specs| == |bits|
    ensures forall k :: 0 <= k < |bits| ==> specs[k] == SlotExt(table, bits[k])
  {
    if bits == [] then [] else SpecsOf(table, bits[..|bits| - 1]) + [SlotExt(table, bits[|bits| - 1])]
  }

  /** A sequence holding the filter of each listed slot, in order, is their `SpecsOf`. */
  lemma SpecsOfPointwise(table: seq<Option<FileType>>, bits: seq<nat>, specs: seq<FilterSpec>)
    requires |specs| == |bits|
    requires forall k :: 0 <= k < |bits| ==> specs[k] == SlotExt(table, bits[k])
    ensures specs == SpecsOf(table, bits)
  {
  }

  /** `n` slots added by `realloc` and not written yet. */
  function Unwritten(n: nat): (slots: seq<Option<FileType>>)
    ensures |slots| == n && forall k :: 0 <= k < n ==> slots[k] == None
  {
    if n == 0 then [] else Unwritten(n - 1) + [None]
  }

  /** The global `extensions` table together with its counter `ext_num`. */
  class Registry {
    /**
     * The contents of the buffer `extensions` points to, one element per
     * allocated slot; `None` marks a slot that was allocated but never written.
     */
    var extensions: seq<Option<FileType>>
    /** `ext_num`: the number of registrations attempted since the first successful allocation. */
    var extNum: nat
    /** The bit positions handed out as IDs so far. */
    ghost var issued: set<nat>

    ghost predicate Valid()
      reads this
    {
      && |extensions| <= extNum
      && (forall i :: i in issued ==> i < |extensions| && extensions[i].Some?)
      && (forall i :: 0 <= i < |extensions| && extensions[i].Some? ==> i in issued)
    }

    /** Slot `i` holds a registered filter. */
    predicate Registered(i: nat)
      reads this
    {
      i < |extensions| && extensions[i].Some?
    }

    /** The state at library load: no table and `ext_num == 0`. */
    constructor ()
      ensures Valid()
      ensures extensions == [] && extNum == 0 && issued == {}
    {
      extensions := [];
      extNum := 0;
      issued := {};
    }

    /**
     * `registerNativeFileExtension(name, ext, def)`.  `allocOk` says whether
     * the `malloc`/`realloc` of the table succeeds.  The code has no check
     * against the 64-bit limit, so the caller must stay below it.
     */
    method Register(name: string, ext: string, def: string, allocOk: bool) returns (id: Long)
      requires Valid() && extNum < 64
      modifies this
      ensures Valid()
      ensures !allocOk ==>
        && id == MinusOne()
        && extensions == old(extensions) && issued == old(issued)
        && extNum == (if old(extNum) == 0 then 0 else old(extNum) + 1)
      ensures allocOk ==>
        && extNum == old(extNum) + 1
        && id == Bit(extNum - 1)
        && extNum - 1 !in old(issued) && issued == old(issued) + {extNum - 1}
        && |extensions| == extNum
        && extensions[..|old(extensions)|] == old(extensions)
        && (forall k :: |old(extensions)| <= k < extNum - 1 ==> extensions[k] == None)
        && extensions[extNum - 1] == Some(FileType(FilterSpec(name, ext), name))
    {
      if extNum == 0 {
        if !allocOk {
          return MinusOne();
        }
        extensions := [None];
        extNum := 1;
      } else {
        extNum := extNum + 1;
        if !allocOk {
          return MinusOne();
        }
        // realloc keeps the old contents; the new slots are uninitialised
        extensions := extensions + Unwritten(extNum - |extensions|);
      }
      // the stored default extension is taken from `name`, as in the source
      extensions := extensions[extNum - 1 := Some(FileType(FilterSpec(name, ext), name))];
      issued := issued + {extNum - 1};
      id := Bit(extNum - 1);
    }

    /**
     * The filter set-up of `showDialog(flags, types, typec, fname)`: when
     * `typec != 0` and the `filters` buffer can be allocated, walk the bits
     * of `types` upwards, copying the filter of each set bit and making its
     * default extension the current one, until `typec` filters are copied.
     */
    method SelectFilters(types: Long, typec: int, allocOk: bool) returns (filters: seq<FilterSpec>, defaultExt: Option<string>)
      requires Valid()
      requires typec == Popcount(types)
      requires forall i :: IsSet(types, i) ==> Registered(i)
      ensures typec == 0 || !allocOk ==> filters == [] && defaultExt == None
      ensures typec != 0 && allocOk ==>
        && filters == SpecsOf(extensions, SetBits(types))
        && |filters| == typec
        && defaultExt == Some(SlotDef(extensions, SetBits(types)[typec - 1]))
    {
      filters, defaultExt := [], None;
      if typec != 0 && allocOk {
        var buf := new FilterSpec[typec];
        var idx := 0;
        var i: nat := 0;
        while idx < typec
          invariant i <= 64
          invariant idx == PopcountBelow(types, i) <= typec
          invariant forall k :: 0 <= k < idx ==> buf[k] == SlotExt(extensions, SetBitsBelow(types, i)[k])
          invariant defaultExt == if idx == 0 then None else Some(SlotDef(extensions, SetBitsBelow(types, i)[idx - 1]))
          decreases 64 - i
        {
          if IsSet(types, i) {
            buf[idx] := extensions[i].value.ext;
            defaultExt := Some(extensions[i].value.def);
            idx := idx + 1;
          }
          PopcountBelowAtMost(types, i + 1);
          i := i + 1;
        }
        SetBitsBelowSaturated(types, i);
        filters := buf[..];
        SpecsOfPointwise(extensions, SetBits(types), filters);
      }
    }
  }

  /** `showNativeFolderOpen`: no filters, so mask 0 and count 0. */
  function FolderOpenArgs(): (Long, int) {
    ({}, 0)
  }

  /** The folder entry point passes no bits and a count of zero, which agree. */
  lemma FolderOpenArgsMeetContract()
    ensures FolderOpenArgs().1 == Popcount(FolderOpenArgs().0)
    ensures SetBits(FolderOpenArgs().0) == []
  {
    PopcountIsCardinality({});
    SetBitsBelowUnchanged({}, 0, 64);
  }

  /** `showNativeFileSave(type, name)`: count 0 when `type == 0`, otherwise 1. */
  function FileSaveArgs(saveType: Long): (Long, int) {
    (saveType, if saveType == {} then 0 else 1)
  }

  /** For "no filter" or a single registered ID, the save entry point meets the count contract of `showDialog`. */
  lemma FileSaveArgsMeetContract(saveType: Long, i: nat)
    requires i < 64
    requires saveType == {} || saveType == Bit(i)
    ensures FileSaveArgs(saveType).1 == Popcount(saveType)
    ensures saveType != {} ==> SetBits(saveType) == [i]
  {
    if saveType != {} {
      PopcountBit(i);
    } else {
      PopcountIsCardinality(saveType);
    }
  }

  /**
   * Two successful registrations on a fresh table get IDs `1` and `2`; a dialog
   * enabling both shows their filters in registration order, and the default
   * extension left in effect is the stored default of the second, which is its
   * description.
   */
  method RegisterTwoThenSelect(n1: string, e1: string, d1: string, n2: string, e2: string, d2: string)
    returns (id1: Long, id2: Long, filters: seq<FilterSpec>, defaultExt: Option<string>)
    ensures id1 == Bit(0) && id2 == Bit(1) && id1 != id2
    ensures filters == [FilterSpec(n1, e1), FilterSpec(n2, e2)]
    ensures defaultExt == Some(n2)
  {
    var registry := new Registry();
    id1 := registry.Register(n1, e1, d1, true);
    id2 := registry.Register(n2, e2, d2, true);
    var mask := Or(id1, id2);
    assert SetBits(mask) == [0, 1] by {
      assert SetBitsBelow(mask, 2) == [0, 1];
      SetBitsBelowUnchanged(mask, 2, 64);
    }
    PopcountIsCardinality(mask);
    assert mask == {0, 1};
    filters, defaultExt := registry.SelectFilters(mask, 2, true);
  }
}
