/**
 * build.py's phases: `Build` configures, builds and optionally installs the
 * project with CMake; `Setup` fetches and builds the third-party libraries
 * and creates the project's data directories; `main` splits the command
 * line and picks one of them.
 */
module BuildPy {
  import opened Wrappers
  import opened ScriptText
  import opened Shell
  import opened BuildOptions
  import opened CryptoToolsSetup

  /** `choose_build_dir`: the same directory for every build type. */
  const BuildDir := "out/build/linux"

  const ColorFlag := "-DCMAKE_CXX_FLAGS=-fdiagnostics-color=always"

  /** The message of the RuntimeError `require(tool)` raises. */
  function Missing(tool: string): string
  {
    "Required tool not found in PATH: " + tool
  }

  // ---------------------------------------------------------------------------
  // Build
  // ---------------------------------------------------------------------------

  /** `-G Ninja` unless the user chose a generator, and only when ninja is on PATH. */
  function GeneratorOpts(cmakeArgs: seq<string>, which: map<string, string>): seq<string>
  {
    if !UserSpecifiedGenerator(cmakeArgs) && "ninja" in which then ["-G", "Ninja"] else []
  }

  /** The build-type definition, added only when the CMake arguments do not already mention one. */
  function TypeDefine(mainArgs: seq<string>, cmakeArgs: seq<string>): seq<string>
  {
    if AlreadySetsBuildType(cmakeArgs) then [] else ["-DCMAKE_BUILD_TYPE=" + ComputeBuildType(mainArgs)]
  }

  /** The install-prefix definition, only for an install with a (non-empty) prefix. */
  function PrefixDefine(install: (bool, Option<string>, bool)): seq<string>
  {
    if install.0 && install.1.Some? && install.1.value != "" then ["-DCMAKE_INSTALL_PREFIX=" + install.1.value] else []
  }

  /** `cfg_args`: the user's CMake arguments, then the definitions the script adds. */
  function ConfigArgs(mainArgs: seq<string>, cmakeArgs: seq<string>, absPath: string -> string): seq<string>
  {
    cmakeArgs + TypeDefine(mainArgs, cmakeArgs) + [ColorFlag] + PrefixDefine(GetInstallArgs(mainArgs, absPath))
  }

  /** `--parallel N` for more than one job. */
  function ParallelOpts(par: nat): seq<string>
  {
    if par > 1 then ["--parallel", NatToDecimal(par)] else []
  }

  /** The configure command: source and build directories, generator, then the arguments. */
  function ConfigureArgv(which: map<string, string>, mainArgs: seq<string>, cmakeArgs: seq<string>, absPath: string -> string): seq<string>
  {
    ["cmake", "-S", ".", "-B", BuildDir] + GeneratorOpts(cmakeArgs, which) + ConfigArgs(mainArgs, cmakeArgs, absPath)
  }

  /** The commands of a build once configured: create the build directory, configure, build, and install when asked for. */
  function StepCommands(configure: seq<string>, par: nat, doInstall: bool, useSudo: bool, windows: bool): seq<Command>
  {
    [ Command(["cmake", "-E", "make_directory", BuildDir], None),
      Command(configure, None),
      Command(["cmake", "--build", BuildDir] + ParallelOpts(par), None) ]
    + (if doInstall then [Command(Privileged(useSudo, windows, ["cmake", "--install", BuildDir]), None)] else [])
  }

  /** The commands `Build` runs for the given options. */
  function BuildCommands(which: map<string, string>, windows: bool, mainArgs: seq<string>, cmakeArgs: seq<string>,
                         par: nat, absPath: string -> string): seq<Command>
  {
    var install := GetInstallArgs(mainArgs, absPath);
    StepCommands(ConfigureArgv(which, mainArgs, cmakeArgs, absPath), par, install.0, install.2, windows)
  }

  /**
   * `Build(project_name, main_args, cmake_args, par)`: without cmake on
   * PATH the RuntimeError of `require` escapes before any command; otherwise
   * the build commands run in order.
   */
  method Build(host: Host, mainArgs: seq<string>, cmakeArgs: seq<string>, par: nat, absPath: string -> string)
    returns (outcome: Outcome)
    modifies host`issued
    ensures "cmake" !in host.which ==> outcome == Raised(Missing("cmake")) && host.issued == old(host.issued)
    ensures "cmake" in host.which ==>
      outcome == Finished && host.issued == old(host.issued) + BuildCommands(host.which, host.windows, mainArgs, cmakeArgs, par, absPath)
  {
    if "cmake" !in host.which {
      return Raised(Missing("cmake"));
    }
    var configure := Configure(host.which, mainArgs, cmakeArgs, absPath);
    var install := GetInstallArgs(mainArgs, absPath);
    RunSteps(host, configure, par, install.0, install.2);
    outcome := Finished;
  }

  /** The `try` block of `Build`: the commands run one after the other. */
  method RunSteps(host: Host, configure: seq<string>, par: nat, doInstall: bool, useSudo: bool)
    modifies host`issued
    ensures host.issued == old(host.issued) + StepCommands(configure, par, doInstall, useSudo, host.windows)
  {
    var buildCmd := ["cmake", "--build", BuildDir];
    if par > 1 {
      buildCmd := buildCmd + ["--parallel", NatToDecimal(par)];
    }
    var installCmd := ["cmake", "--install", BuildDir];
    assert buildCmd == ["cmake", "--build", BuildDir] + ParallelOpts(par);
    var makeDir := ["cmake", "-E", "make_directory", BuildDir];
    ghost var cmds := StepCommands(configure, par, doInstall, useSudo, host.windows);
    ghost var head := [Command(makeDir, None), Command(configure, None), Command(buildCmd, None)];
    assert cmds[..3] == head;
    host.Run(makeDir, None, false);
    host.Run(configure, None, false);
    host.Run(buildCmd, None, false);
    assert host.issued == old(host.issued) + head;
    if doInstall {
      host.Run(installCmd, None, useSudo);
      assert cmds == head + [Command(Privileged(useSudo, host.windows, installCmd), None)];
    } else {
      assert cmds == head;
    }
  }

  /** The configure step of `Build`: pick the generator, then assemble `cfg_args`. */
  method Configure(which: map<string, string>, mainArgs: seq<string>, cmakeArgs: seq<string>, absPath: string -> string)
    returns (argv: seq<string>)
    ensures argv == ConfigureArgv(which, mainArgs, cmakeArgs, absPath)
  {
    var buildType := ComputeBuildType(mainArgs);
    var generatorOpts := [];
    if !UserSpecifiedGenerator(cmakeArgs) {
      if "ninja" in which {
        generatorOpts := ["-G", "Ninja"];
      }
    }
    var cfgArgs := cmakeArgs;
    if !AlreadySetsBuildType(cfgArgs) {
      cfgArgs := cfgArgs + ["-DCMAKE_BUILD_TYPE=" + buildType];
    }
    cfgArgs := cfgArgs + [ColorFlag];
    var install := GetInstallArgs(mainArgs, absPath);
    var doInstall, installPrefix := install.0, install.1;
    if doInstall && installPrefix.Some? && installPrefix.value != "" {
      cfgArgs := cfgArgs + ["-DCMAKE_INSTALL_PREFIX=" + installPrefix.value];
    }
    argv := ["cmake", "-S", ".", "-B", BuildDir] + generatorOpts + cfgArgs;
  }

  /** The three commands every build runs, in order, and the install command exactly when one is requested. */
  lemma BuildSequence(which: map<string, string>, windows: bool, mainArgs: seq<string>, cmakeArgs: seq<string>,
                      par: nat, absPath: string -> string)
    ensures var cmds := BuildCommands(which, windows, mainArgs, cmakeArgs, par, absPath);
      var install := GetInstallArgs(mainArgs, absPath);
      |cmds| == (if install.0 then 4 else 3)
      && cmds[0].argv == ["cmake", "-E", "make_directory", BuildDir]
      && cmds[1].argv[..5] == ["cmake", "-S", ".", "-B", BuildDir]
      && cmds[2].argv[..3] == ["cmake", "--build", BuildDir]
      && (install.0 <==> ("--install" in mainArgs || exists i :: 0 <= i < |mainArgs| && StartsWith(mainArgs[i], "--install=")))
  {
  }

  /**
   * The install command runs exactly when `--install` or `--install=PATH`
   * is given, and behind sudo exactly when `--sudo` is given and the host
   * is not Windows.
   */
  lemma InstallRequested(which: map<string, string>, windows: bool, mainArgs: seq<string>, cmakeArgs: seq<string>,
                         par: nat, absPath: string -> string)
    ensures var cmds := BuildCommands(which, windows, mainArgs, cmakeArgs, par, absPath);
      var requested := "--install" in mainArgs || exists i :: 0 <= i < |mainArgs| && StartsWith(mainArgs[i], "--install=");
      (requested <==> |cmds| == 4)
      && (requested ==> cmds[3].argv == (if "--sudo" in mainArgs && !windows then ["sudo", "cmake", "--install", BuildDir] else ["cmake", "--install", BuildDir]))
  {
  }

  /** The CMake arguments given after "--" reach the configure command verbatim, right after the generator options. */
  lemma CMakeArgsForwarded(which: map<string, string>, mainArgs: seq<string>, cmakeArgs: seq<string>, absPath: string -> string)
    ensures var cfg := ConfigureArgv(which, mainArgs, cmakeArgs, absPath);
      var g := |GeneratorOpts(cmakeArgs, which)|;
      |cfg| >= 5 + g + |cmakeArgs| && cfg[5 + g..5 + g + |cmakeArgs|] == cmakeArgs
  {
    var head := ["cmake", "-S", ".", "-B", BuildDir] + GeneratorOpts(cmakeArgs, which);
    var rest := TypeDefine(mainArgs, cmakeArgs) + [ColorFlag] + PrefixDefine(GetInstallArgs(mainArgs, absPath));
    Middle(head, cmakeArgs, rest);
  }

  /** The middle part of a three-way concatenation is found where it was put. */
  lemma Middle<T>(a: seq<T>, b: seq<T>, c: seq<T>)
    ensures (a + b + c)[|a|..|a| + |b|] == b
  {
    assert forall i :: 0 <= i < |b| ==> (a + b + c)[|a|..|a| + |b|][i] == b[i];
  }

  /**
   * The build command asks for parallel jobs exactly when more than one
   * job is wanted, and the job count it passes reads back as that number.
   */
  lemma ParallelJobs(par: nat)
    ensures var argv := ["cmake", "--build", BuildDir] + ParallelOpts(par);
      ("--parallel" in argv <==> par > 1)
      && (par > 1 ==> |argv| == 5 && argv[3] == "--parallel" && ParseInt(argv[4]) == Some(par))
  {
    ParseDecimal(par);
  }

  /** `-G Ninja` is passed exactly when the user gave no `-G` option and ninja is on PATH. */
  lemma NinjaChosen(which: map<string, string>, mainArgs: seq<string>, cmakeArgs: seq<string>, absPath: string -> string)
    ensures var cfg := ConfigureArgv(which, mainArgs, cmakeArgs, absPath);
      var auto := (forall i :: 0 <= i < |cmakeArgs| ==> !StartsWith(cmakeArgs[i], "-G")) && "ninja" in which;
      |cfg| >= 7 && (auto <==> cfg[5..7] == ["-G", "Ninja"] && GeneratorOpts(cmakeArgs, which) != [])
  {
  }

  /**
   * Without a build type among the CMake arguments, the first configure
   * argument that mentions CMAKE_BUILD_TYPE is the definition of the type
   * the options select; with one, the user's own comes first and the
   * script adds none, going straight on to the colour flag.
   */
  lemma EffectiveBuildType(mainArgs: seq<string>, cmakeArgs: seq<string>, absPath: string -> string)
    ensures var cfg := ConfigArgs(mainArgs, cmakeArgs, absPath);
      |cfg| > |cmakeArgs| && cfg[..|cmakeArgs|] == cmakeArgs
      && (AlreadySetsBuildType(cmakeArgs) ==> cfg[|cmakeArgs|] == ColorFlag)
      && (!AlreadySetsBuildType(cmakeArgs) ==>
            cfg[|cmakeArgs|] == "-DCMAKE_BUILD_TYPE=" + ComputeBuildType(mainArgs)
            && Contains(cfg[|cmakeArgs|], "CMAKE_BUILD_TYPE")
            && forall i :: 0 <= i < |cmakeArgs| ==> !Contains(cfg[i], "CMAKE_BUILD_TYPE"))
  {
    var cfg := ConfigArgs(mainArgs, cmakeArgs, absPath);
    var tail := [ColorFlag] + PrefixDefine(GetInstallArgs(mainArgs, absPath));
    assert cfg == cmakeArgs + (TypeDefine(mainArgs, cmakeArgs) + tail);
    if !AlreadySetsBuildType(cmakeArgs) {
      BuildTypeDefineMentions("-DCMAKE_BUILD_TYPE=" + ComputeBuildType(mainArgs));
    }
  }

  // ---------------------------------------------------------------------------
  // Setup
  // ---------------------------------------------------------------------------

  /** The project's data directories, relative to the directory of build.py. */
  const DataDirs: seq<string> := [
    "data/test/utils", "data/test/ss", "data/test/ss3", "data/test/protocol", "data/test/wm", "data/test/fmi",
    "data/bench/pir", "data/bench/ringoa", "data/bench/sot", "data/bench/os", "data/bench/wm", "data/bench/ofmi",
    "data/bench/sotfmi",
    "data/logs/dpf", "data/logs/pir", "data/logs/ringoa", "data/logs/sot", "data/logs/os", "data/logs/wm",
    "data/logs/ofmi", "data/logs/sotfmi"
  ]

  /** `[dir_path / p for p in to_create]`. */
  function DataPaths(root: string): (r: seq<string>)
    ensures |r| == |DataDirs| && forall i :: 0 <= i < |r| ==> r[i] == Join(root, DataDirs[i])
  {
    seq(|DataDirs|, i requires 0 <= i < |DataDirs| => Join(root, DataDirs[i]))
  }

  function MakeDir(path: string): Command
  {
    Command(["cmake", "-E", "make_directory", path], None)
  }

  /** The commands `ensure_dirs(paths)` runs: one make_directory per path that does not exist, in order. */
  function MakeDirs(paths: seq<string>, dirs: set<string>): seq<Command>
  {
    if paths == [] then []
    else
      var last := paths[|paths| - 1];
      MakeDirs(paths[..|paths| - 1], dirs) + (if last in dirs then [] else [MakeDir(last)])
  }

  /** `ensure_dirs(paths)`. */
  method EnsureDirs(host: Host, paths: seq<string>)
    modifies host`issued
    ensures host.issued == old(host.issued) + MakeDirs(paths, host.dirs)
  {
    for i := 0 to |paths|
      invariant host.issued == old(host.issued) + MakeDirs(paths[..i], host.dirs)
    {
      assert paths[..i + 1][..i] == paths[..i];
      var p := paths[i];
      if p !in host.dirs {
        host.Run(["cmake", "-E", "make_directory", p], None, false);
      }
    }
    assert paths[..|paths|] == paths;
  }

  /** Every command of `ensure_dirs` creates one of its paths. */
  lemma {:induction false} MakeDirsOnly(paths: seq<string>, dirs: set<string>)
    ensures |MakeDirs(paths, dirs)| <= |paths|
    ensures forall c :: c in MakeDirs(paths, dirs) ==> exists p :: p in paths && p !in dirs && c == MakeDir(p)
  {
    if paths != [] {
      var init := paths[..|paths| - 1];
      MakeDirsOnly(init, dirs);
      forall c | c in MakeDirs(paths, dirs)
        ensures exists p :: p in paths && p !in dirs && c == MakeDir(p)
      {
        if c in MakeDirs(init, dirs) {
          var p :| p in init && p !in dirs && c == MakeDir(p);
          assert p in paths;
        } else {
          assert c == MakeDir(paths[|paths| - 1]);
        }
      }
    }
  }

  /** Each of the paths that does not exist gets a make_directory command; each that exists gets none. */
  lemma {:induction false} MakeDirsExact(paths: seq<string>, dirs: set<string>, p: string)
    ensures MakeDir(p) in MakeDirs(paths, dirs) <==> p in paths && p !in dirs
  {
    if paths != [] {
      var init := paths[..|paths| - 1];
      var last := paths[|paths| - 1];
      MakeDirsExact(init, dirs, p);
      assert paths == init + [last];
      if p in init && p !in dirs {
        assert MakeDir(p) in MakeDirs(init, dirs);
      }
    }
  }

  /** The commands `Setup(par, create_project_dirs=True)` runs once git and cmake are found. */
  function SetupCommands(which: map<string, string>, windows: bool, dirs: set<string>, root: string, par: nat): seq<Command>
  {
    var here := Join(root, "thirdparty");
    PinCommands(here, Join(here, "cryptoTools") in dirs)
    + SubBuilds(PythonExe(which), Join(here, "cryptoTools"), BaseOptions(here, par, false, false), StepOptions(true, true, false))
    + MakeDirs(DataPaths(root), dirs)
  }

  /**
   * `Setup(par, create_project_dirs=True)`, build.py living in `root`:
   * git and cmake must be on PATH; then cryptoTools and Boost are fetched,
   * built and installed without sudo, and the data directories are created.
   */
  method Setup(host: Host, root: string, par: nat) returns (outcome: Outcome)
    modifies host`issued
    ensures "git" !in host.which ==> outcome == Raised(Missing("git")) && host.issued == old(host.issued)
    ensures "git" in host.which && "cmake" !in host.which ==> outcome == Raised(Missing("cmake")) && host.issued == old(host.issued)
    ensures "git" in host.which && "cmake" in host.which ==>
      outcome == Finished && host.issued == old(host.issued) + SetupCommands(host.which, host.windows, host.dirs, root, par)
  {
    if "git" !in host.which {
      return Raised(Missing("git"));
    }
    if "cmake" !in host.which {
      return Raised(Missing("cmake"));
    }
    var here := Join(root, "thirdparty");
    GetCryptoTools(host, here, par, true, true, false, false, false);
    EnsureDirs(host, DataPaths(root));
    outcome := Finished;
  }

  /**
   * Setup runs Boost's step and then cryptoTools' build in the checkout;
   * read with this project's build.py option rules, each asks for the job
   * count, the thirdparty/unix prefix and a Release build.
   */
  lemma SetupSubBuilds(which: map<string, string>, windows: bool, dirs: set<string>, root: string, par: nat,
                       absPath: string -> string, cpuCount: nat)
    requires par >= 1
    ensures var here := Join(root, "thirdparty");
      var subs := SubBuilds(PythonExe(which), Join(here, "cryptoTools"), BaseOptions(here, par, false, false), StepOptions(true, true, false));
      |subs| == 2
      && forall k :: 0 <= k < 2 ==>
        var opts := subs[k].argv[2..];
        subs[k].cwd == Some(Join(here, "cryptoTools"))
        && ParallelOf(opts, cpuCount) == Success(par)
        && GetInstallArgs(opts, absPath) == (true, Some(absPath(Join(here, "unix"))), false)
        && ComputeBuildType(opts) == "Release"
  {
    var here := Join(root, "thirdparty");
    var steps := StepOptions(true, true, false);
    var subs := SubBuilds(PythonExe(which), Join(here, "cryptoTools"), BaseOptions(here, par, false, false), steps);
    forall k | 0 <= k < 2
      ensures var opts := subs[k].argv[2..];
        ParallelOf(opts, cpuCount) == Success(par)
        && GetInstallArgs(opts, absPath) == (true, Some(absPath(Join(here, "unix"))), false)
        && ComputeBuildType(opts) == "Release"
    {
      assert subs[k].argv[2..] == BaseOptions(here, par, false, false) + steps[k];
      StepsPlain(true, true, false);
      assert steps[k] in steps;
      SubBuildOptionsRead(here, par, false, false, steps[k], absPath, cpuCount);
    }
  }

  // ---------------------------------------------------------------------------
  // main
  // ---------------------------------------------------------------------------

  /**
   * `main("RingOA")` on the arguments `argv`: `--help` runs nothing; an
   * invalid `--par=` value exits with status 1 before any command;
   * `--setup` runs the setup phase, anything else the build.
   */
  method Dispatch(host: Host, argv: seq<string>, cpuCount: nat, root: string, absPath: string -> string)
    returns (outcome: Outcome)
    modifies host`issued
    ensures var mainArgs := SplitArgs(argv).0;
      HasFlag(mainArgs, "--help") ==> outcome == Finished && host.issued == old(host.issued)
    ensures var mainArgs := SplitArgs(argv).0;
      (!HasFlag(mainArgs, "--help") && ParallelOf(mainArgs, cpuCount).Failure?) ==>
        outcome == Exited(1) && host.issued == old(host.issued)
    ensures var (mainArgs, cmakeArgs) := SplitArgs(argv);
      var par := ParallelOf(mainArgs, cpuCount);
      (!HasFlag(mainArgs, "--help") && par.Success? && HasFlag(mainArgs, "--setup") && "git" in host.which && "cmake" in host.which) ==>
        outcome == Finished && host.issued == old(host.issued) + SetupCommands(host.which, host.windows, host.dirs, root, par.value)
    ensures var (mainArgs, cmakeArgs) := SplitArgs(argv);
      var par := ParallelOf(mainArgs, cpuCount);
      (!HasFlag(mainArgs, "--help") && par.Success? && !HasFlag(mainArgs, "--setup") && "cmake" in host.which) ==>
        outcome == Finished
        && host.issued == old(host.issued) + BuildCommands(host.which, host.windows, mainArgs, cmakeArgs, par.value, absPath)
    ensures var mainArgs := SplitArgs(argv).0;
      (!HasFlag(mainArgs, "--help") && ParallelOf(mainArgs, cpuCount).Success? && HasFlag(mainArgs, "--setup") && "git" !in host.which) ==>
        outcome == Raised(Missing("git")) && host.issued == old(host.issued)
    ensures var mainArgs := SplitArgs(argv).0;
      (!HasFlag(mainArgs, "--help") && ParallelOf(mainArgs, cpuCount).Success? && HasFlag(mainArgs, "--setup")
       && "git" in host.which && "cmake" !in host.which) ==>
        outcome == Raised(Missing("cmake")) && host.issued == old(host.issued)
    ensures var mainArgs := SplitArgs(argv).0;
      (!HasFlag(mainArgs, "--help") && ParallelOf(mainArgs, cpuCount).Success? && !HasFlag(mainArgs, "--setup") && "cmake" !in host.which) ==>
        outcome == Raised(Missing("cmake")) && host.issued == old(host.issued)
    ensures outcome.Raised? ==>
      host.issued == old(host.issued) && (outcome == Raised(Missing("git")) || outcome == Raised(Missing("cmake")))
  {
    var split := SplitArgs(argv);
    var mainArgs, cmakeArgs := split.0, split.1;
    if HasFlag(mainArgs, "--help") {
      return Finished;
    }
    var par := GetParallel(mainArgs, cpuCount);
    if par.Failure? {
      return Exited(par.error);
    }
    if HasFlag(mainArgs, "--setup") {
      outcome := Setup(host, root, par.value);
    } else {
      outcome := Build(host, mainArgs, cmakeArgs, par.value, absPath);
    }
  }
}
