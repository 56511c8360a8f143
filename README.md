# RoanH Util: file-extension registry, version fold, exclamation-mark path check

This project models the three pieces of sequential logic in the RoanH `Util` library and proves properties about them.

1. **The file selector's extension registry and bit-mask protocol.**
   - On the native side, `registerNativeFileExtension` grows a global table of extension filters. Each successful registration gets the ID `1 << (ext_num-1)`, where `ext_num` also counts registrations whose `realloc` failed, because the counter is incremented before the reallocation.
   - `showDialog` walks the set bits of a 64-bit mask and copies the matching filters into the buffer it gives the Windows dialog.
   - On the Java side, `registerFileExtension` validates its arguments and joins the extensions into a `*.a;*.b` filter string. It maps the native error codes `-1` and `-2` to exceptions.
   - The open dialog ORs the IDs of its extensions into a mask.
   - The save dialog picks the native type. In Swing mode it enforces the first extension as the file-name suffix.
2. **The latest-version check**, in two variants: `dev.roanh.util.Util` with floor `1.0` and the older `me.roan.util.Util` with floor `3.0`.
   - The first line of the tag list is cut at every `"name":"v` marker.
   - Each piece is read as `major.minor`.
   - The lexicographically greatest version is kept and formatted as `v<major>.<minor>`.
3. **The exclamation-mark path work-around** (`me.roan.util.ExclamationMarkPath`).
   - `verifyPath` walks the parent chain looking for a directory whose name ends in `!`.
   - `check` decides between carrying on, relaunching and warning.
   - `relaunchFromTemp` builds the command `[jvm, "-jar", tmp] ++ args`.

## Modules

- `Masks`: a `jlong` is modelled as the set of positions of its one bits.
  - `|` is union and `1 << i` is `{i}`.
  - `-1` is all 64 positions and `-2` is all positions except 0.
  - It also defines population count and the ascending list of set bits.
- `JavaStrings`: the JDK operations the code relies on.
  - `String.split` with a literal separator: trailing empty pieces are dropped, and a string with no match gives itself.
  - `trim().isEmpty()`, ASCII `toLowerCase`, `equalsIgnoreCase` and `endsWith`.
  - `Integer.parseInt` and `Integer.toString`.
- `NativeFileSelector`: models `me_roan_util_FileSelector.cpp`.
  - The class `Registry` holds the `extensions` table and the `ext_num` counter.
  - `SelectFilters` is the loop of `showDialog`, over an `array` buffer.
  - It also covers the `typec` choice of the folder and save entry points.
- `FileSelector`: models `dev/roanh/util/FileSelector.java`. Whether the native library is loaded is a parameter, and the native registration call is a function parameter.
- `TagFold`: the fold shared by both version checks, as functions.
- `DevUtil` and `LegacyUtil`: each has its own `checkVersion` loop, proved equal to the fold, plus its label fallback.
- `ExclamationMarkPath`:
  - A path is its sequence of component names. `isFile`, `exists`, `getAbsolutePath`, the temp file and the copy's success are inputs.
  - The static field `exe` becomes the field of the class `Launcher`.

## Model

| member | source | states |
|---|---|---|
| NativeFileSelector.Registry.constructor | Util/native/me_roan_util_FileSelector.cpp:40-44 | at load the table is empty, `ext_num` is 0 and no ID has been issued |
| NativeFileSelector.Registry.Register | Util/native/me_roan_util_FileSelector.cpp:188-212 | success: `ext_num` grows by one and the ID is `1 << (ext_num-1)`, a bit never issued before; earlier entries are unchanged and only slot `ext_num-1` is written; the stored default extension is the description `name`; failed allocation returns -1, leaving `ext_num` at 0 on the first call and incremented on later ones |
| NativeFileSelector.Registry.SelectFilters | Util/native/me_roan_util_FileSelector.cpp:74-84 | given `typec == popcount(types)` and only registered bits set, the buffer holds exactly `typec` filters, those of the set bits in ascending order; the default extension left in effect is the highest set bit's; with `typec == 0` or a failed `malloc` there are no filters |
| NativeFileSelector.SpecsOf | Util/native/me_roan_util_FileSelector.cpp:80 | the filters copied for a list of slots are those slots' `ext` fields, one each, in order |
| NativeFileSelector.FolderOpenArgsMeetContract | Util/native/me_roan_util_FileSelector.cpp:163-165 | the folder dialog passes mask 0 and count 0, which agree and select no filters |
| NativeFileSelector.FileSaveArgsMeetContract | Util/native/me_roan_util_FileSelector.cpp:175-177 | the save dialog's count (0 for type 0, else 1) equals the popcount of a "no filter" or single-bit type and selects that bit |
| NativeFileSelector.RegisterTwoThenSelect | Util/native/me_roan_util_FileSelector.cpp:188-212 | two registrations on a fresh table get IDs 1 and 2; enabling both shows both filters in registration order, and the second description ends up as the default extension |
| Masks.BitIsNotErrorCode | Util/src/dev/roanh/util/FileSelector.java:231-236 | no issued ID, including `1 << 63`, is the error code -1 or -2 |
| Masks.PopcountIsCardinality | Util/native/me_roan_util_FileSelector.cpp:50-51 | `typec`, the number of set bits, is the number of one positions of the mask |
| Masks.SetBitsBelowExact | Util/native/me_roan_util_FileSelector.cpp:78-79 | the bits the loop visits as set are exactly the set bits, each once, in ascending order |
| Masks.PopcountBit | Util/native/me_roan_util_FileSelector.cpp:176 | a single-bit ID has population count 1 |
| JavaStrings.TrimEmptyIffBlank | Util/src/dev/roanh/util/FileSelector.java:225 | `trim().isEmpty()` holds exactly when every character is at most U+0020 |
| JavaStrings.ParseIntToString | Util/src/dev/roanh/util/Util.java:165-174 | `Integer.parseInt` reads back every 32-bit value written by string concatenation |
| JavaStrings.SplitAllNoMatch | Util/src/dev/roanh/util/Util.java:161 | splitting a string with no occurrence of the separator gives the whole string |
| JavaStrings.LowerIdempotent | Util/src/dev/roanh/util/FileSelector.java:162-171 | lower-casing with `Locale.ROOT` twice equals lower-casing once |
| FileSelector.FilterStringPatterns | Util/src/dev/roanh/util/FileSelector.java:223-229 | when no extension contains `;`, the joined filter string, split at `;`, is `*.e` for each extension in order |
| FileSelector.Rejects | Util/src/dev/roanh/util/FileSelector.java:225 | an extension is rejected exactly when it is `null` or blank, which is what `trim().isEmpty()` tests |
| FileSelector.JoinExtensions | Util/src/dev/roanh/util/FileSelector.java:223-229 | the loop rejects exactly when some extension is null or blank; otherwise it yields the `StringJoiner` result |
| FileSelector.RegisterFileExtension | Util/src/dev/roanh/util/FileSelector.java:215-241 | null or empty extensions give IllegalArgument, checked before the description; a null description gives NullPointer; in native mode, a null or blank extension gives IllegalArgument, ID -1 gives IllegalState, -2 gives TooManyExtensions, and any other ID is stored; Swing mode keeps description and extensions in a filter |
| FileSelector.RegisterNativeSucceeds | Util/src/dev/roanh/util/FileSelector.java:222-236 | with valid arguments, a native ID `1 << k` is stored as the extension's ID, and native registration receives the joined filter and the first extension |
| FileSelector.MaskOfBits | Util/src/dev/roanh/util/FileSelector.java:70-74 | a bit of the OR-ed mask is set exactly when it is set in one of the IDs |
| FileSelector.NativeOpenArgs | Util/src/dev/roanh/util/FileSelector.java:68-75 | the mask is the OR of all IDs and the count is `extensions.length`; a null array or element gives NullPointer |
| FileSelector.OpenArgsMeetNativeContract | Util/src/dev/roanh/util/FileSelector.java:70-75 | for distinct registered IDs, the mask's set bits are exactly their positions and its popcount is the count passed |
| FileSelector.DuplicateExtensionMiscount | Util/src/dev/roanh/util/FileSelector.java:75 | passing one extension twice sends count 2 with one bit set |
| FileSelector.IntendedOpenArgsMeetNativeContract | Util/native/me_roan_util_FileSelector.cpp:74-84 | with the count taken as the popcount, any registered IDs, repeated or not, meet the loop's preconditions, and the loop selects each distinct filter once |
| FileSelector.SaveArgsMeetNativeContract | Util/src/dev/roanh/util/FileSelector.java:147-149 | the save type is the filter's ID, or 0 without a filter; the native count then matches its popcount |
| FileSelector.EnforcedSuffixIsLower | Util/src/dev/roanh/util/FileSelector.java:155-166 | the suffix is `""` exactly when there is no filter, otherwise `"."` plus the lower-cased first extension, so it is lower case |
| FileSelector.WithSuffixLaws | Util/src/dev/roanh/util/FileSelector.java:169-173 | after enforcement the lower-cased name ends with the suffix; a name that already ends with it is unchanged; enforcing twice equals enforcing once |
| TagFold.Step | Util/src/dev/roanh/util/Util.java:164-173 | one tag never lowers the best version and ends above the tag; the result is the old best or the tag itself; the step throws exactly when the tag's major is at least the best's and its minor is missing |
| TagFold.FoldUpperBound | Util/src/dev/roanh/util/Util.java:164-174 | a finished fold is at or above the floor and above every tag |
| TagFold.FoldAttained | Util/src/dev/roanh/util/Util.java:164-174 | a finished fold is the floor or a version some tag names in full |
| TagFold.FoldIsLexMax | Util/src/dev/roanh/util/Util.java:161-175 | when every tag has `major.minor`, the fold finishes with the lexicographic maximum of the floor and the tags |
| TagFold.FoldOrderIndependent | Util/src/dev/roanh/util/Util.java:164-174 | two orders of the same tags that both finish give the same version |
| TagFold.NoMarkerGivesFloor | Util/src/dev/roanh/util/Util.java:160-174 | a response without `"name":"v` gives the floor |
| TagFold.LatestAtLeastFloor | Util/src/me/roan/util/Util.java:80-87 | the result is lexicographically at least the floor |
| TagFold.ParseTagOfName | Util/src/dev/roanh/util/Util.java:165-172 | a tag `M.m`, optionally followed by more `.` parts and then `","`, parses to `(M, m)`; only text before the first `","` and only parts 0 and 1 are read |
| DevUtil.CheckVersion | Util/src/dev/roanh/util/Util.java:150-181 | the loop returns `"v" + M + "." + m` for the fold's result with floor `1.0`, and `null` for a null line or any exception |
| DevUtil.NoTagsGivesFloor | Util/src/dev/roanh/util/Util.java:160-174 | a response without tags gives `"v1.0"` |
| DevUtil.LabelShowsFailure | Util/src/dev/roanh/util/Util.java:105-127 | with the default `"unknown"`, the label reads `"unknown"` exactly when the check failed |
| LegacyUtil.CheckVersion | Util/src/me/roan/util/Util.java:70-101 | the loop with `max_main`/`max_sub` and `continue` returns the fold's result with floor `3.0`, formatted, or `null` |
| LegacyUtil.MajorAtLeastThree | Util/src/me/roan/util/Util.java:80-87 | a found version's major is at least 3 |
| LegacyUtil.LabelShowsFailure | Util/src/me/roan/util/Util.java:59 | the label reads `"unknown :("` exactly when the check failed |
| ExclamationMarkPath.VerifyPathExact | Util/src/me/roan/util/ExclamationMarkPath.java:221-233 | `verifyPath` holds exactly when some component on the chain is not a regular file and its name ends in `!` |
| ExclamationMarkPath.FileNameIgnored | Util/src/me/roan/util/ExclamationMarkPath.java:224-225 | a regular file's own name is never tested |
| ExclamationMarkPath.RelaunchFlagAnyCase | Util/src/me/roan/util/ExclamationMarkPath.java:80 | a last argument equal to `-relaunch` in any letter case relaunches without a dialog |
| ExclamationMarkPath.BuildCommand | Util/src/me/roan/util/ExclamationMarkPath.java:186-201 | the command is `[jvm, "-jar", tmp] ++ args` in order; null or empty args add nothing; the single-argument branch agrees with the general one |
| ExclamationMarkPath.CheckSpec | Util/src/me/roan/util/ExclamationMarkPath.java:78-118 | the program carries on exactly when its location is not affected. When affected, a relaunch is asked for when warnings are suppressed, the last argument is `-relaunch` in any case, or option 1 is chosen at the warning. A requested relaunch starts a process if the executable exists, the copy to an unaffected temp file succeeds and no argument is `null`. It throws `NullPointerException` if an argument is `null`, and exits if it gives up. Any other answer to the warning ends in an exit. A `null` last argument without suppressed warnings throws. A process is never started otherwise, and `NullPointerException` only comes from a `null` argument. The command is `[jvm, "-jar", tmp] ++ args`, with `java.exe` under `java.home` as the JVM when that exists |
| ExclamationMarkPath.RelaunchEffect | Util/src/me/roan/util/ExclamationMarkPath.java:153-211 | `relaunchFromTemp` returns without starting anything (`Exit`) exactly when the executable is missing, the temp file cannot be made, is affected or is not copied. Otherwise a `null` argument gives the uncaught `NullPointerException` from `start`, and a command without `null` is started as `[jvm, "-jar", tmp] ++ args`. `jvm` is `java.exe` under `java.home` when that file exists, else `java` |
| ExclamationMarkPath.NullArgumentThrows | Util/src/me/roan/util/ExclamationMarkPath.java:186-210 | with warnings suppressed and the copy made, a `null` argument anywhere ends `check` with the uncaught `NullPointerException` from `ProcessBuilder.start`, never a launch |
| ExclamationMarkPath.Launcher.Affected | Util/src/me/roan/util/ExclamationMarkPath.java:125-142 | without a code source the location is unaffected and `exe` is unchanged; otherwise `exe` is recorded and tested with `verifyPath` |
| ExclamationMarkPath.Launcher.RelaunchFromTemp | Util/src/me/roan/util/ExclamationMarkPath.java:153-211 | gives up when the executable is missing, the temp file cannot be made, the temp path is affected or the copy fails; otherwise it builds the command with `java.exe` under `java.home` if that exists, else `java`, and throws `NullPointerException` from `start` when an argument is `null` |
| ExclamationMarkPath.Launcher.Check | Util/src/me/roan/util/ExclamationMarkPath.java:78-118 | the effect of `check(suppressWarning, args)` is `CheckSpec`'s, including the exception for a `null` argument, and `exe` is recorded when there is a code source |

## Left out

- Registry.Register: requires `ext_num < 64`. The code has no upper-bound check: a 65th registration shifts by 64, which is undefined behaviour in C++. The native side never returns -2, so Java's `TooManyExtensionsException` cannot be raised.
- The COM dialog calls, `SetFileTypes`, `Show`, the result path and the UTF-16 to UTF-8 conversion in the native code call Windows APIs and are not modelled.
- The native exports are named for `me.roan.util.FileSelector`, while the Java natives are declared in `dev.roanh.util.FileSelector`, and the header declares `jint` masks. The bit-mask protocol is modelled as the contract between the two sides, not as a link between them.
- The static initialiser that extracts and loads the native library, and the Swing `JFileChooser` loops and prompts, are left out. Only the suffix rule of the save dialog is modelled, as `EnforcedSuffix` and `WithSuffix`.
- FileSelector.RegisterFileExtension: in Swing mode, the JDK `FileNameExtensionFilter` constructor's check (null or empty extension) is taken from its documentation, because that code is not part of this model.
- JavaStrings.LowerIdempotent: lower-casing and `equalsIgnoreCase` are ASCII only. `parseInt` accepts ASCII digits only, and `split` is modelled for literal separators only.
- The HTTP connection, `readLine`, the background thread, `readArtifactVersion` and the `String.format` label markup are I/O or GUI. The first response line is an input, and `None` stands for a `null` line.
- TagFold.FoldOrderIndependent: only compares orders that both finish. Whether a tag without a minor throws depends on whether a larger major has already been seen, so the `null` result can depend on the order.
- FileSelector: `toPath` is not modelled. It maps `null` to `null` and otherwise calls `Paths.get`, whose parsing is JDK code outside this model; the dialogs' result strings are left as strings.
- ExclamationMarkPath.Launcher.RelaunchFromTemp: `Launch` stands for `start` succeeding. An `IOException` from `start` and an `InterruptedException` from `waitFor`, both caught by the source before `check` exits with status 0, and the child's exit status passed to `System.exit` are not modelled.
- ExclamationMarkPath: the JDK queries (`isFile`, `exists`, `getAbsolutePath`, `createTempFile`, `Files.copy`) are inputs. `CodeSource`, the URL-to-`File` conversion, `ProcessBuilder`, the child's exit status and `System.exit` are not modelled; `Exit` and `Launch` stand for their effects.
- ExclamationMarkPath.Launcher.Check: the warning dialog's text and buttons are left out; the option chosen is an input.

## Findings

| source | as written | input that shows it | evidently intended | confidence | as-written member | corrected member |
|---|---|---|---|---|---|---|
| Util/src/dev/roanh/util/FileSelector.java:75 | `showNativeFileOpen(filters, extensions.length)` passes the number of arguments as `typec` | `showFileOpenDialog(e, e)`: the mask `1 << k` has one bit but `typec` is 2, so the native loop (me_roan_util_FileSelector.cpp:78) keeps shifting past bit 63 and reads past the table | `typec` is the number of bits set in `types`, as both native parameter comments state | not executed | FileSelector.DuplicateExtensionMiscount | FileSelector.IntendedOpenArgsMeetNativeContract |
