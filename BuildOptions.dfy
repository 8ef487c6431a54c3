/**
 * The option handling of build.py: splitting the command line at "--",
 * the job count, the build type, the install request and the checks on
 * the arguments passed through to CMake.
 */
module BuildOptions {
  import opened Wrappers
  import opened ScriptText

  /** `has_flag(args, flag)`: some argument equals flag. */
  function HasFlag(args: seq<string>, flag: string): (r: bool)
    ensures r <==> flag in args
  {
    if args == [] then false
    else
      assert args == [args[0]] + args[1..];
      args[0] == flag || HasFlag(args[1..], flag)
  }

  /** The index of the first occurrence of x. */
  function FirstIndex(s: seq<string>, x: string): (r: nat)
    requires x in s
    ensures r < |s| && s[r] == x && x !in s[..r]
  {
    if s[0] == x then 0
    else
      assert s == [s[0]] + s[1..];
      var k := FirstIndex(s[1..], x);
      assert s[..k + 1] == [s[0]] + s[1..][..k];
      k + 1
  }

  /**
   * `split_args(argv)`: the arguments before the first "--" are the
   * script's own, those after it go to CMake verbatim and in order; with no
   * "--" nothing goes to CMake.
   */
  function SplitArgs(argv: seq<string>): (r: (seq<string>, seq<string>))
    ensures "--" in argv ==> r.0 + ["--"] + r.1 == argv && "--" !in r.0
    ensures "--" !in argv ==> r.0 == argv && r.1 == []
  {
    if "--" in argv then
      var idx := FirstIndex(argv, "--");
      assert argv == argv[..idx] + [argv[idx]] + argv[idx + 1..];
      (argv[..idx], argv[idx + 1..])
    else (argv, [])
  }

  // ---------------------------------------------------------------------------
  // The job count
  // ---------------------------------------------------------------------------

  /** The value of a `--par=N` argument: what follows its first '='. */
  function ParValue(x: string): string
    requires StartsWith(x, "--par=")
  {
    x[6..]
  }

  /** The values of the `--par=` arguments, in order. */
  function ParValues(args: seq<string>): seq<string>
  {
    if args == [] then []
    else
      var last := args[|args| - 1];
      ParValues(args[..|args| - 1]) + if StartsWith(last, "--par=") then [ParValue(last)] else []
  }

  /** A job count below 1 becomes 1. */
  function Clamp(v: int): (r: nat)
    ensures r >= 1 && (v >= 1 ==> r == v)
  {
    if v < 1 then 1 else v
  }

  /**
   * The job count build.py settles on: exit status 1 if any `--par=` value
   * is not an integer; otherwise the last value, raised to at least 1; and
   * with no `--par=` the number of CPUs (0 when unknown), at least 1.
   */
  function ParallelOf(args: seq<string>, cpuCount: nat): (r: Result<nat, int>)
    ensures r.Success? ==> r.value >= 1
    ensures r.Failure? ==> r.error == 1
  {
    var vs := ParValues(args);
    if exists i :: 0 <= i < |vs| && ParseInt(vs[i]).None? then Failure(1)
    else if vs == [] then Success(if cpuCount == 0 then 1 else cpuCount)
    else Success(Clamp(ParseInt(vs[|vs| - 1]).value))
  }

  /** The values of a prefix of the arguments are a prefix of the values. */
  lemma {:induction false} ParValuesPrefix(args: seq<string>, i: nat)
    requires i <= |args|
    ensures |ParValues(args[..i])| <= |ParValues(args)|
    ensures ParValues(args[..i]) == ParValues(args)[..|ParValues(args[..i])|]
    decreases |args|
  {
    if i < |args| {
      var init := args[..|args| - 1];
      assert init[..i] == args[..i];
      ParValuesPrefix(init, i);
    } else {
      assert args[..i] == args;
    }
  }

  /** The values of two argument lists, one after the other. */
  lemma {:induction false} ParValuesAppend(a: seq<string>, b: seq<string>)
    ensures ParValues(a + b) == ParValues(a) + ParValues(b)
    decreases |b|
  {
    if b == [] {
      assert a + b == a;
    } else {
      var init := b[..|b| - 1];
      assert (a + b)[..|a + b| - 1] == a + init;
      ParValuesAppend(a, init);
    }
  }

  /** Without a `--par=` argument there are no values. */
  lemma {:induction false} ParValuesNone(a: seq<string>)
    requires forall i :: 0 <= i < |a| ==> !StartsWith(a[i], "--par=")
    ensures ParValues(a) == []
  {
    if a != [] {
      ParValuesNone(a[..|a| - 1]);
    }
  }

  /**
   * `get_parallel(args)`: walks the arguments, each `--par=N` replacing the
   * count by N (at least 1), and exits with status 1 at the first value
   * that is not an integer.
   */
  method GetParallel(args: seq<string>, cpuCount: nat) returns (r: Result<nat, int>)
    ensures r == ParallelOf(args, cpuCount)
  {
    var par: nat := if cpuCount == 0 then 1 else cpuCount;
    for i := 0 to |args|
      invariant ParallelOf(args[..i], cpuCount) == Success(par)
    {
      var x := args[i];
      assert args[..i + 1][..i] == args[..i];
      if StartsWith(x, "--par=") {
        var val := ParValue(x);
        var v := ParseInt(val);
        if v.None? {
          InvalidExits(args, i);
          return Failure(1);
        }
        par := Clamp(v.value);
      }
    }
    assert args[..|args|] == args;
    r := Success(par);
  }

  /** An argument `--par=` with a non-integer value before position i + 1 makes the whole command line exit with status 1. */
  lemma InvalidExits(args: seq<string>, i: nat)
    requires i < |args| && StartsWith(args[i], "--par=") && ParseInt(ParValue(args[i])).None?
    ensures ParallelOf(args, 0) == Failure(1)
    ensures forall cpu: nat :: ParallelOf(args, cpu) == Failure(1)
  {
    var vs := ParValues(args[..i + 1]);
    assert args[..i + 1][..i] == args[..i];
    ParValuesPrefix(args, i + 1);
    assert ParValues(args)[|vs| - 1] == vs[|vs| - 1];
  }

  /** A final `--par=n` decides the job count of a command line that does not exit. */
  lemma LastParWins(args: seq<string>, cpuCount: nat, n: nat)
    requires ParallelOf(args, cpuCount).Success?
    ensures ParallelOf(args + ["--par=" + NatToDecimal(n)], cpuCount) == Success(Clamp(n))
  {
    var x := "--par=" + NatToDecimal(n);
    var all := args + [x];
    assert all[..|all| - 1] == args;
    assert StartsWith(x, "--par=") by {
      assert x[..6] == "--par=";
    }
    assert ParValue(x) == NatToDecimal(n);
    ParseDecimal(n);
    var vs := ParValues(all);
    assert vs == ParValues(args) + [NatToDecimal(n)];
    assert forall i :: 0 <= i < |vs| - 1 ==> vs[i] == ParValues(args)[i];
  }

  // ---------------------------------------------------------------------------
  // Build type, install request and CMake arguments
  // ---------------------------------------------------------------------------

  /**
   * `already_sets_build_type(cmake_args)`: some argument starts with
   * `-DCMAKE_BUILD_TYPE=` or mentions `CMAKE_BUILD_TYPE`; the first test
   * adds nothing to the second.
   */
  function AlreadySetsBuildType(cmakeArgs: seq<string>): (r: bool)
    ensures r <==> exists i :: 0 <= i < |cmakeArgs| && Contains(cmakeArgs[i], "CMAKE_BUILD_TYPE")
  {
    if cmakeArgs == [] then false
    else
      var a := cmakeArgs[0];
      if StartsWith(a, "-DCMAKE_BUILD_TYPE=") then
        BuildTypeDefineMentions(a);
        true
      else if Contains(a, "CMAKE_BUILD_TYPE") then true
      else
        var rest := AlreadySetsBuildType(cmakeArgs[1..]);
        assert forall i :: 1 <= i < |cmakeArgs| ==> cmakeArgs[i] == cmakeArgs[1..][i - 1];
        rest
  }

  /** A `-DCMAKE_BUILD_TYPE=` definition mentions `CMAKE_BUILD_TYPE`. */
  lemma BuildTypeDefineMentions(a: string)
    requires StartsWith(a, "-DCMAKE_BUILD_TYPE=")
    ensures Contains(a, "CMAKE_BUILD_TYPE")
  {
    assert StartsWith(a, "-D" + "CMAKE_BUILD_TYPE") by {
      assert a[..18] == a[..19][..18];
    }
    StartsWithContains(a, "-D", "CMAKE_BUILD_TYPE");
  }

  /** `compute_build_type(main_args)`: Debug for --debug/--Debug, else RelWithDebInfo for --profile/--Profile, else Release. */
  function ComputeBuildType(mainArgs: seq<string>): (r: string)
    ensures r == "Debug" <==> "--debug" in mainArgs || "--Debug" in mainArgs
    ensures r == "RelWithDebInfo" <==>
      !("--debug" in mainArgs || "--Debug" in mainArgs) && ("--profile" in mainArgs || "--Profile" in mainArgs)
    ensures r in {"Debug", "RelWithDebInfo", "Release"}
  {
    if "--debug" in mainArgs || "--Debug" in mainArgs then "Debug"
    else if "--profile" in mainArgs || "--Profile" in mainArgs then "RelWithDebInfo"
    else "Release"
  }

  /** The value of the first `--install=PATH` argument, if any. */
  function FirstInstallValue(args: seq<string>): (r: Option<string>)
    ensures r.None? <==> forall i :: 0 <= i < |args| ==> !StartsWith(args[i], "--install=")
    ensures r.Some? ==> exists i :: (0 <= i < |args| && args[i] == "--install=" + r.value
      && forall j :: 0 <= j < i ==> !StartsWith(args[j], "--install="))
  {
    if args == [] then None
    else if StartsWith(args[0], "--install=") then
      assert args[0] == "--install=" + args[0][10..];
      Some(args[0][10..])
    else
      var r := FirstInstallValue(args[1..]);
      assert forall i :: 1 <= i < |args| ==> args[i] == args[1..][i - 1];
      if r.Some? then
        var k :| 0 <= k < |args[1..]| && args[1..][k] == "--install=" + r.value
          && forall j :: 0 <= j < k ==> !StartsWith(args[1..][j], "--install=");
        assert args[k + 1] == "--install=" + r.value;
        r
      else r
  }

  /**
   * `get_install_args(args)`: (install?, prefix, sudo?).  The first
   * `--install=PATH` wins and its path is made absolute by `absPath`
   * (`os.path.abspath` after `expanduser`); a bare `--install` installs to
   * CMake's default prefix; `--sudo` anywhere asks for sudo.
   */
  function GetInstallArgs(args: seq<string>, absPath: string -> string): (r: (bool, Option<string>, bool))
    ensures r.2 <==> "--sudo" in args
    ensures r.1.Some? <==> exists i :: 0 <= i < |args| && StartsWith(args[i], "--install=")
    ensures r.1.Some? ==> r.0 && r.1.value == absPath(FirstInstallValue(args).value)
    ensures r.1.None? ==> (r.0 <==> "--install" in args)
  {
    var useSudo := HasFlag(args, "--sudo");
    match FirstInstallValue(args)
    case Some(v) => (true, Some(absPath(v)), useSudo)
    case None => (HasFlag(args, "--install"), None, useSudo)
  }

  /** `user_specified_generator(cmake_args)`: some argument is `-G` or starts with it. */
  function UserSpecifiedGenerator(cmakeArgs: seq<string>): (r: bool)
    ensures r <==> exists i :: 0 <= i < |cmakeArgs| && StartsWith(cmakeArgs[i], "-G")
  {
    if cmakeArgs == [] then false
    else
      assert forall i :: 1 <= i < |cmakeArgs| ==> cmakeArgs[i] == cmakeArgs[1..][i - 1];
      cmakeArgs[0] == "-G" || StartsWith(cmakeArgs[0], "-G") || UserSpecifiedGenerator(cmakeArgs[1..])
  }
}
