/**
 * `me.roan.util.ExclamationMarkPath`: detecting an executable location with
 * a directory whose name ends in `!`, deciding between relaunching and
 * warning, and building the relaunch command.
 *
 * A path is the sequence of its component names from the root down; the
 * file system is read through the oracles of `Environment`.
 */
module ExclamationMarkPath {
  import opened Wrappers
  import opened JavaStrings

  /** A non-empty sequence of component names; the last is the file's own name. */
  type Path = p: seq<string> | |p| >= 1 witness [""]

  /** `getParentFile()`: `null` for a single component. */
  function Parent(p: Path): Option<Path> {
    if |p| == 1 then None else Some(p[..|p| - 1])
  }

  /** `getName()`. */
  function Name(p: Path): string {
    p[|p| - 1]
  }

  /**
   * `verifyPath(file)`: walk up the parent chain; a component that is not a
   * regular file and whose name ends with `!` makes the path affected.
   */
  function VerifyPath(file: Option<Path>, isFile: Path -> bool): bool
    decreases if file.None? then 0 else |file.value|
  {
    if file.None? then false
    else if isFile(file.value) then VerifyPath(Parent(file.value), isFile)
    else if EndsWith(Name(file.value), "!") then true
    else VerifyPath(Parent(file.value), isFile)
  }

  /** The prefix of `p` with `k` components is not a regular file and its name ends with `!`. */
  predicate AffectedAt(p: Path, k: nat, isFile: Path -> bool)
    requires 1 <= k <= |p|
  {
    !isFile(p[..k]) && EndsWith(p[k - 1], "!")
  }

  /** `verifyPath` holds exactly when some non-file component on the chain has a name ending in `!`. */
  lemma {:induction false} VerifyPathExact(p: Path, isFile: Path -> bool)
    ensures VerifyPath(Some(p), isFile) <==> exists k :: 1 <= k <= |p| && AffectedAt(p, k, isFile)
    decreases |p|
  {
    assert p[..|p|] == p;
    if !isFile(p) && EndsWith(Name(p), "!") {
      assert AffectedAt(p, |p|, isFile);
    }
    if |p| > 1 {
      var parent := p[..|p| - 1];
      VerifyPathExact(parent, isFile);
      forall k | 1 <= k < |p| ensures AffectedAt(p, k, isFile) <==> AffectedAt(parent, k, isFile) {
        assert parent[..k] == p[..k];
      }
      if exists k :: 1 <= k <= |p| && AffectedAt(p, k, isFile) {
        var k :| 1 <= k <= |p| && AffectedAt(p, k, isFile);
        if k < |p| {
          assert AffectedAt(parent, k, isFile);
        }
      }
    }
  }

  /**
   * The name of a regular file is never tested: two regular files in the
   * same directory get the same answer, whatever their names.
   */
  lemma FileNameIgnored(dir: Path, name1: string, name2: string, isFile: Path -> bool)
    requires isFile(dir + [name1]) && isFile(dir + [name2])
    ensures VerifyPath(Some(dir + [name1]), isFile) == VerifyPath(Some(dir + [name2]), isFile)
  {
    assert (dir + [name1])[..|dir|] == dir;
    assert (dir + [name2])[..|dir|] == dir;
  }

  /** What `check(suppressWarning, args)` does once it knows whether the location is affected. */
  datatype Decision = NotAffected | Relaunch | ShowWarning | ThrowsNullPointer

  /**
   * The decision of `check(suppressWarning, args)`: when affected, relaunch
   * if warnings are suppressed or the last argument is `-relaunch` in any
   * case, else warn; a `null` last argument throws.
   */
  function Decide(affected: bool, suppressWarning: bool, args: Option<seq<Option<string>>>): Decision {
    if !affected then NotAffected
    else if suppressWarning then Relaunch
    else if args.None? || |args.value| == 0 then ShowWarning
    else if args.value[|args.value| - 1].None? then ThrowsNullPointer
    else if RelaunchRequested(args) then Relaunch
    else ShowWarning
  }

  /** `-relaunch` is recognised in any letter case. */
  lemma RelaunchFlagAnyCase(flag: string, others: seq<Option<string>>)
    requires Lower(flag) == "-relaunch"
    ensures Decide(true, false, Some(others + [Some(flag)])) == Relaunch
  {
    LowerIdempotent(flag);
  }

  /**
   * With warnings suppressed, a `null` argument anywhere reaches
   * `ProcessBuilder.start` once the copy succeeds, and its exception
   * escapes `check` instead of a process being started.
   */
  lemma NullArgumentThrows(env: Environment, args: seq<Option<string>>, k: nat)
    requires env.codeSource.Some? && VerifyPath(env.codeSource, env.isFile)
    requires env.pathExists(env.codeSource.value) && env.tempFile.Some?
    requires !VerifyPath(env.tempFile, env.isFile) && env.copyOk
    requires k < |args| && args[k].None?
    ensures CheckSpec(env, true, Some(args)) == NullPointer
  {
    var cmd := RelaunchSpec(env, env.codeSource.value, Some(args)).value;
    assert cmd[3 + k] == args[k];
  }

  /** The warning dialog leads to a relaunch only for the second button (option 1). */
  function WarningRelaunches(option: int): bool {
    option == 1
  }

  /**
   * `[jvm, "-jar", tmpPath] ++ args`, built as the source does: a fixed
   * three- or four-element command, or an array filled by `System.arraycopy`.
   */
  method BuildCommand(jvm: string, tmpPath: string, args: Option<seq<Option<string>>>) returns (cmd: seq<Option<string>>)
    ensures cmd == [Some(jvm), Some("-jar"), Some(tmpPath)] + (if args.None? then [] else args.value)
  {
    if args.Some? && |args.value| != 0 {
      var given := args.value;
      if |given| == 1 {
        cmd := [Some(jvm), Some("-jar"), Some(tmpPath), given[0]];
      } else {
        var a := new Option<string>[|given| + 3](_ => None);
        a[0] := Some(jvm);
        a[1] := Some("-jar");
        a[2] := Some(tmpPath);
        var i := 0;
        while i < |given|
          invariant 0 <= i <= |given|
          invariant a[..3] == [Some(jvm), Some("-jar"), Some(tmpPath)]
          invariant a[3..3 + i] == given[..i]
        {
          a[3 + i] := given[i];
          i := i + 1;
          assert a[3..3 + i] == a[3..3 + i - 1] + [given[i - 1]];
        }
        assert a[..] == a[..3] + a[3..3 + i];
        cmd := a[..];
      }
    } else {
      cmd := [Some(jvm), Some("-jar"), Some(tmpPath)];
    }
  }

  /**
   * What the program sees of its surroundings: the code source location,
   * the file-system queries, the `java.exe` under `java.home` (when it
   * exists), the temporary file (`None` when creating it fails), whether
   * copying succeeds and the option chosen in the warning dialog.
   */
  datatype Environment = Environment(
    codeSource: Option<Path>,
    isFile: Path -> bool,
    pathExists: Path -> bool,
    absolutePath: Path -> string,
    javaExe: Option<Path>,
    tempFile: Option<Path>,
    copyOk: bool,
    option: int)

  /** The end of `check(suppressWarning, args)`. */
  datatype Effect =
    | Continue                            // not affected: the method returns
    | Exit                                // `System.exit(0)` without a new process
    | Launch(cmd: seq<Option<string>>)    // the relaunch process is started
    | NullPointer                         // an exception escapes

  /** Every element of the command is a non-null string. */
  predicate NoNulls(cmd: seq<Option<string>>) {
    forall k :: 0 <= k < |cmd| ==> cmd[k].Some?
  }

  /** The last argument, when there is one, is not `null`, so testing it for `-relaunch` does not throw. */
  predicate LastNotNull(args: Option<seq<Option<string>>>) {
    args.None? || |args.value| == 0 || args.value[|args.value| - 1].Some?
  }

  /** The last argument asks for a relaunch: it is `-relaunch` in any letter case. */
  predicate RelaunchRequested(args: Option<seq<Option<string>>>) {
    && args.Some? && |args.value| != 0 && args.value[|args.value| - 1].Some?
    && EqualsIgnoreCase(args.value[|args.value| - 1].value, "-relaunch")
  }

  /** The JVM to start: `java.exe` under `java.home` when that file exists, else `java` from the path. */
  function Jvm(env: Environment): string {
    if env.javaExe.Some? && env.pathExists(env.javaExe.value) then env.absolutePath(env.javaExe.value) else "java"
  }

  /** The command `relaunchFromTemp(args)` builds, or `None` when it gives up before building one. */
  function RelaunchSpec(env: Environment, exe: Path, args: Option<seq<Option<string>>>): Option<seq<Option<string>>> {
    if !env.pathExists(exe) || env.tempFile.None? || VerifyPath(env.tempFile, env.isFile) || !env.copyOk then None
    else
      Some([Some(Jvm(env)), Some("-jar"), Some(env.absolutePath(env.tempFile.value))] + (if args.None? then [] else args.value))
  }

  /**
   * The effect of `check(suppressWarning, args)`. The program carries on
   * exactly when its location is not affected; a relaunch only happens
   * from an existing executable, through a copy in a temporary location
   * that is itself unaffected, with the original arguments after `-jar`
   * and the copy, never with a `null` argument, and only when warnings are
   * suppressed, `-relaunch` was passed or the user chose the second button.
   * Conversely, such a request with nothing to give up on starts the
   * process, or throws when an argument is `null`; a request that gives up
   * and any other answer to the warning end in an exit; a `null` last
   * argument without suppressed warnings throws.
   */
  function CheckSpec(env: Environment, suppressWarning: bool, args: Option<seq<Option<string>>>): (effect: Effect)
    ensures effect == Continue <==> env.codeSource.None? || !VerifyPath(env.codeSource, env.isFile)
    ensures effect.Launch? ==>
      && env.codeSource.Some? && VerifyPath(env.codeSource, env.isFile)
      && env.pathExists(env.codeSource.value) && env.copyOk
      && env.tempFile.Some? && !VerifyPath(env.tempFile, env.isFile)
      && |effect.cmd| >= 3 && effect.cmd[0] == Some(Jvm(env))
      && effect.cmd[1] == Some("-jar") && effect.cmd[2] == Some(env.absolutePath(env.tempFile.value))
      && effect.cmd[3..] == (if args.None? then [] else args.value)
      && NoNulls(effect.cmd)
    ensures effect.Launch? ==> suppressWarning || RelaunchRequested(args) || env.option == 1
    ensures effect.Launch? && args.Some? ==> NoNulls(args.value)
    ensures effect.NullPointer? ==>
      env.codeSource.Some? && VerifyPath(env.codeSource, env.isFile) && args.Some? && !NoNulls(args.value)
    ensures
      && env.codeSource.Some? && VerifyPath(env.codeSource, env.isFile)
      && !suppressWarning && !LastNotNull(args)
      ==> effect == NullPointer
    ensures
      && env.codeSource.Some? && VerifyPath(env.codeSource, env.isFile)
      && (suppressWarning || RelaunchRequested(args) || (LastNotNull(args) && env.option == 1))
      && !(env.pathExists(env.codeSource.value) && env.tempFile.Some? && !VerifyPath(env.tempFile, env.isFile) && env.copyOk)
      ==> effect == Exit
    ensures
      && env.codeSource.Some? && VerifyPath(env.codeSource, env.isFile)
      && (suppressWarning || RelaunchRequested(args) || (LastNotNull(args) && env.option == 1))
      && env.pathExists(env.codeSource.value) && env.tempFile.Some?
      && !VerifyPath(env.tempFile, env.isFile) && env.copyOk
      && args.Some? && !NoNulls(args.value)
      ==> effect == NullPointer
    ensures
      && env.codeSource.Some? && VerifyPath(env.codeSource, env.isFile)
      && (suppressWarning || RelaunchRequested(args) || (LastNotNull(args) && env.option == 1))
      && env.pathExists(env.codeSource.value) && env.tempFile.Some?
      && !VerifyPath(env.tempFile, env.isFile) && env.copyOk
      && (args.None? || NoNulls(args.value))
      ==> effect.Launch?
    ensures
      && env.codeSource.Some? && VerifyPath(env.codeSource, env.isFile)
      && !suppressWarning && !RelaunchRequested(args) && LastNotNull(args) && env.option != 1
      ==> effect == Exit
  {
    var affected := env.codeSource.Some? && VerifyPath(env.codeSource, env.isFile);
    match Decide(affected, suppressWarning, args)
    case NotAffected => Continue
    case ThrowsNullPointer => NullPointer
    case Relaunch => RelaunchEffect(env, env.codeSource.value, args)
    case ShowWarning => if WarningRelaunches(env.option) then RelaunchEffect(env, env.codeSource.value, args) else Exit
  }

  /**
   * The end of a relaunch attempt: the process started; `NullPointer` when
   * the command holds a `null` argument, which `ProcessBuilder.start`
   * rejects with an exception that is not caught; or an exit when it gives up.
   */
  function RelaunchEffect(env: Environment, exe: Path, args: Option<seq<Option<string>>>): (effect: Effect)
    ensures effect.Exit? || effect.Launch? || effect.NullPointer?
    ensures effect.NullPointer? ==> args.Some? && !NoNulls(args.value)
    ensures !(env.pathExists(exe) && env.tempFile.Some? && !VerifyPath(env.tempFile, env.isFile) && env.copyOk)
      ==> effect == Exit
    ensures
      && env.pathExists(exe) && env.tempFile.Some? && !VerifyPath(env.tempFile, env.isFile) && env.copyOk
      && args.Some? && !NoNulls(args.value)
      ==> effect == NullPointer
    ensures effect.Launch? ==> NoNulls(effect.cmd)
    ensures
      && env.pathExists(exe) && env.tempFile.Some? && !VerifyPath(env.tempFile, env.isFile) && env.copyOk
      && (args.None? || NoNulls(args.value))
      ==> effect.Launch?
    ensures effect.Launch? ==>
      && env.pathExists(exe) && env.copyOk
      && env.tempFile.Some? && !VerifyPath(env.tempFile, env.isFile)
      && |effect.cmd| >= 3 && effect.cmd[0] == Some(Jvm(env))
      && effect.cmd[1] == Some("-jar") && effect.cmd[2] == Some(env.absolutePath(env.tempFile.value))
      && effect.cmd[3..] == (if args.None? then [] else args.value)
  {
    match RelaunchSpec(env, exe, args)
    case None => Exit
    case Some(cmd) =>
      NullCarriesOver(cmd[..3], if args.None? then [] else args.value);
      if NoNulls(cmd) then Launch(cmd) else NullPointer
  }

  /** A `null` argument is still there after the command's first elements. */
  lemma NullCarriesOver(front: seq<Option<string>>, args: seq<Option<string>>)
    ensures NoNulls(front + args) ==> NoNulls(args)
  {
    if NoNulls(front + args) {
      forall k | 0 <= k < |args|
        ensures args[k].Some?
      {
        assert (front + args)[|front| + k] == args[k];
      }
    }
  }

  /** The static state of the class: the executable location found by `check()`. */
  class Launcher {
    var exe: Option<Path>

    constructor ()
      ensures exe.None?
    {
      exe := None;
    }

    /** `check()`: record the executable location and test it. */
    method Affected(env: Environment) returns (affected: bool)
      modifies this
      ensures env.codeSource.None? ==> !affected && exe == old(exe)
      ensures env.codeSource.Some? ==> exe == env.codeSource && affected == VerifyPath(exe, env.isFile)
    {
      if env.codeSource.None? {
        return false;
      }
      exe := env.codeSource;
      affected := VerifyPath(exe, env.isFile);
    }

    /**
     * `relaunchFromTemp(args)` for the recorded executable: `Exit` when it
     * returns without starting a process (the caller then exits), `Launch`
     * when the process is started and `NullPointer` when `start` throws.
     */
    method RelaunchFromTemp(env: Environment, args: Option<seq<Option<string>>>) returns (effect: Effect)
      requires exe.Some?
      ensures effect == RelaunchEffect(env, exe.value, args)
    {
      if !env.pathExists(exe.value) {
        return Exit;
      }
      var jvm := "java";
      if env.javaExe.Some? && env.pathExists(env.javaExe.value) {
        jvm := env.absolutePath(env.javaExe.value);
      }
      if env.tempFile.None? {
        return Exit;
      }
      var tmp := env.tempFile.value;
      if VerifyPath(Some(tmp), env.isFile) {
        return Exit;
      }
      if !env.copyOk {
        return Exit;
      }
      var cmd := BuildCommand(jvm, env.absolutePath(tmp), args);
      assert RelaunchSpec(env, exe.value, args) == Some(cmd);
      // `ProcessBuilder.start` throws on a `null` element of the command
      if !NoNulls(cmd) {
        return NullPointer;
      }
      return Launch(cmd);
    }

    /** `check(suppressWarning, args)`. */
    method Check(env: Environment, suppressWarning: bool, args: Option<seq<Option<string>>>) returns (effect: Effect)
      modifies this
      ensures effect == CheckSpec(env, suppressWarning, args)
      ensures env.codeSource.Some? ==> exe == env.codeSource
      ensures env.codeSource.None? ==> exe == old(exe)
    {
      var affected := Affected(env);
      if affected {
        var relaunch: bool;
        if suppressWarning || RelaunchRequested(args) {
          relaunch := true;
        } else if args.Some? && |args.value| != 0 && args.value[|args.value| - 1].None? {
          return NullPointer;
        } else {
          relaunch := WarningRelaunches(env.option);
        }
        ghost var decision := Decide(affected, suppressWarning, args);
        assert decision == Relaunch || decision == ShowWarning;
        assert relaunch <==> decision == Relaunch || WarningRelaunches(env.option);
        if relaunch {
          var outcome := RelaunchFromTemp(env, args);
          if !outcome.Exit? {
            return outcome;
          }
        }
        return Exit;
      }
      assert Decide(affected, suppressWarning, args) == NotAffected;
      return Continue;
    }
  }
}
