/**
 * thirdparty/getCryptoTools.py: fetch the cryptoTools repository at a
 * pinned commit and run its own build script for Boost, Relic and
 * cryptoTools, every sub-build installing into thirdparty/unix.
 */
module CryptoToolsSetup {
  import opened Wrappers
  import opened ScriptText
  import opened Shell
  import opened BuildOptions

  const RepoUrl := "https://github.com/ladnir/cryptoTools.git"
  /** The pinned revision of cryptoTools. */
  const Commit := "2bf5fe84e19cadd9aeea5c191a08ac59e65b54e7"

  /** `dir / name` as a string. */
  function Join(dir: string, name: string): string
  {
    dir + "/" + name
  }

  /** `pyexe()`: python3 if found, else python, else the bare name python3. */
  function PythonExe(which: map<string, string>): string
  {
    if "python3" in which then which["python3"]
    else if "python" in which then which["python"]
    else "python3"
  }

  /** The clone (only when the repository is absent), then fetch, checkout of the pinned commit and submodule update. */
  function PinCommands(here: string, repoPresent: bool): seq<Command>
  {
    var repoDir := Some(Join(here, "cryptoTools"));
    (if repoPresent then [] else [Command(["git", "clone", RepoUrl], Some(here))])
    + [ Command(["git", "fetch", "--all", "--tags", "--prune"], repoDir),
        Command(["git", "checkout", "--quiet", Commit], repoDir),
        Command(["git", "submodule", "update", "--init", "--recursive"], repoDir) ]
  }

  /** The options every sub-build gets: the job count, the fixed install prefix, then --debug and --sudo when asked for. */
  function BaseOptions(here: string, par: nat, debug: bool, sudo: bool): seq<string>
  {
    ["--par=" + NatToDecimal(par), "--install=" + Join(here, "unix")]
    + (if debug then ["--debug"] else [])
    + (if sudo then ["--sudo"] else [])
  }

  /** The options of the cryptoTools build itself: Boost on and not fetched, Relic on exactly when it was set up. */
  function CryptoToolsOptions(setupRelic: bool): seq<string>
  {
    ["-DFETCH_AUTO=ON", "-DENABLE_BOOST=ON", "-DFETCH_BOOST=OFF"]
    + (if setupRelic then ["-DENABLE_RELIC=ON", "-DFETCH_RELIC=OFF"] else ["-DENABLE_RELIC=OFF", "-DFETCH_RELIC=OFF"])
  }

  /** The step-specific options of the enabled sub-builds, in the order Boost, Relic, cryptoTools. */
  function StepOptions(buildCryptoTools: bool, setupBoost: bool, setupRelic: bool): seq<seq<string>>
  {
    (if setupBoost then [["--boost"]] else [])
    + (if setupRelic then [["--relic"]] else [])
    + (if buildCryptoTools then [CryptoToolsOptions(setupRelic)] else [])
  }

  /** One `python build.py` run in the repository per step. */
  function SubBuilds(python: string, repoDir: string, base: seq<string>, steps: seq<seq<string>>): (r: seq<Command>)
    ensures |r| == |steps|
    ensures forall k :: 0 <= k < |steps| ==> r[k] == Command([python, "build.py"] + base + steps[k], Some(repoDir))
  {
    if steps == [] then []
    else [Command([python, "build.py"] + base + steps[0], Some(repoDir))] + SubBuilds(python, repoDir, base, steps[1..])
  }

  /** Appending one step appends its run. */
  lemma {:induction false} SubBuildsSnoc(python: string, repoDir: string, base: seq<string>, steps: seq<seq<string>>, step: seq<string>)
    ensures SubBuilds(python, repoDir, base, steps + [step])
      == SubBuilds(python, repoDir, base, steps) + [Command([python, "build.py"] + base + step, Some(repoDir))]
  {
    var all := SubBuilds(python, repoDir, base, steps + [step]);
    var rhs := SubBuilds(python, repoDir, base, steps) + [Command([python, "build.py"] + base + step, Some(repoDir))];
    assert |all| == |rhs|;
    forall k | 0 <= k < |all|
      ensures all[k] == rhs[k]
    {
      if k < |steps| {
        assert (steps + [step])[k] == steps[k];
      }
    }
  }

  /**
   * `getCryptoTools(par, build_cryptoTools, setup_boost, setup_relic,
   * debug, use_sudo)` run from the directory `here`: the pinning commands,
   * then the enabled sub-builds.
   */
  method GetCryptoTools(host: Host, here: string, par: nat, buildCryptoTools: bool, setupBoost: bool,
                        setupRelic: bool, debug: bool, useSudo: bool)
    modifies host`issued
    ensures host.issued == old(host.issued)
      + PinCommands(here, Join(here, "cryptoTools") in host.dirs)
      + SubBuilds(PythonExe(host.which), Join(here, "cryptoTools"),
                  BaseOptions(here, par, debug, useSudo && !host.windows),
                  StepOptions(buildCryptoTools, setupBoost, setupRelic))
  {
    var repoDir := Join(here, "cryptoTools");
    Pin(host, here);
    ghost var pinned := host.issued;

    var base := BaseArgs(host, here, par, debug, useSudo);
    ghost var python := PythonExe(host.which);
    ghost var opts := BaseOptions(here, par, debug, useSudo && !host.windows);
    ghost var steps: seq<seq<string>> := [];
    if setupBoost {
      RunStep(host, base, repoDir, python, opts, pinned, steps, ["--boost"]);
      steps := steps + [["--boost"]];
    }
    if setupRelic {
      RunStep(host, base, repoDir, python, opts, pinned, steps, ["--relic"]);
      steps := steps + [["--relic"]];
    }
    if buildCryptoTools {
      var extra := ["-DFETCH_AUTO=ON", "-DENABLE_BOOST=ON", "-DFETCH_BOOST=OFF"];
      if setupRelic {
        extra := extra + ["-DENABLE_RELIC=ON", "-DFETCH_RELIC=OFF"];
      } else {
        extra := extra + ["-DENABLE_RELIC=OFF", "-DFETCH_RELIC=OFF"];
      }
      RunStep(host, base, repoDir, python, opts, pinned, steps, extra);
      steps := steps + [extra];
    }
    assert steps == StepOptions(buildCryptoTools, setupBoost, setupRelic);
  }

  /** The base argument list, built by appends: interpreter, script, job count, prefix, then the optional flags. */
  method BaseArgs(host: Host, here: string, par: nat, debug: bool, useSudo: bool) returns (base: seq<string>)
    ensures base == [PythonExe(host.which), "build.py"] + BaseOptions(here, par, debug, useSudo && !host.windows)
  {
    var stagedPrefix := Join(here, "unix");
    base := [PythonExe(host.which), "build.py", "--par=" + NatToDecimal(par), "--install=" + stagedPrefix];
    var dbg := if debug then "--debug" else "";
    if dbg != "" {
      base := base + [dbg];
    }
    if useSudo && !host.windows {
      base := base + ["--sudo"];
    }
  }

  /** The pinning commands of `getCryptoTools`. */
  method Pin(host: Host, here: string)
    modifies host`issued
    ensures host.issued == old(host.issued) + PinCommands(here, Join(here, "cryptoTools") in host.dirs)
  {
    var repoDir := Join(here, "cryptoTools");
    if repoDir !in host.dirs {
      host.Run(["git", "clone", RepoUrl], Some(here), false);
    }
    host.Run(["git", "fetch", "--all", "--tags", "--prune"], Some(repoDir), false);
    host.Run(["git", "checkout", "--quiet", Commit], Some(repoDir), false);
    host.Run(["git", "submodule", "update", "--init", "--recursive"], Some(repoDir), false);
  }

  /** One sub-build: `run(base + step, cwd=repo_dir)`, extending the runs so far by one. */
  method RunStep(host: Host, base: seq<string>, repoDir: string, ghost python: string, ghost opts: seq<string>,
                 ghost pinned: seq<Command>, ghost steps: seq<seq<string>>, step: seq<string>)
    modifies host`issued
    requires base == [python, "build.py"] + opts
    requires host.issued == pinned + SubBuilds(python, repoDir, opts, steps)
    ensures host.issued == pinned + SubBuilds(python, repoDir, opts, steps + [step])
  {
    SubBuildsSnoc(python, repoDir, opts, steps, step);
    assert base + step == [python, "build.py"] + opts + step;
    host.Run(base + step, Some(repoDir), false);
  }

  /** A step option that build.py's option parsing ignores: not a job count, install, build-type or sudo option. */
  predicate PlainOption(x: string)
  {
    !StartsWith(x, "--par=") && !StartsWith(x, "--install=")
    && x !in {"--install", "--debug", "--Debug", "--profile", "--Profile", "--sudo"}
  }

  /** A string that differs from prefix at position k does not start with it. */
  lemma DiffersAt(x: string, prefix: string, k: nat)
    requires k < |prefix| && k < |x| && x[k] != prefix[k]
    ensures !StartsWith(x, prefix)
  {
    if |prefix| <= |x| {
      assert x[..|prefix|][k] == x[k];
    }
  }

  /** A `-D` definition is plain. */
  lemma DefinePlain(x: string)
    requires |x| >= 2 && x[1] == 'D'
    ensures PlainOption(x)
  {
    DiffersAt(x, "--par=", 1);
    DiffersAt(x, "--install=", 1);
  }

  /** `--boost` and `--relic` are plain. */
  lemma FlagsPlain()
    ensures PlainOption("--boost") && PlainOption("--relic")
  {
    DiffersAt("--boost", "--par=", 2);
    DiffersAt("--boost", "--install=", 2);
    DiffersAt("--relic", "--par=", 2);
    DiffersAt("--relic", "--install=", 2);
  }

  /** Every step-specific option is plain. */
  lemma StepsPlain(buildCryptoTools: bool, setupBoost: bool, setupRelic: bool)
    ensures forall step, x :: step in StepOptions(buildCryptoTools, setupBoost, setupRelic) && x in step ==> PlainOption(x)
  {
    FlagsPlain();
    forall x | x in CryptoToolsOptions(setupRelic)
      ensures PlainOption(x)
    {
      DefinePlain(x);
    }
  }

  /** The job count and install arguments are neither a build-type nor a sudo flag. */
  lemma HeadTokens(p: string, i: string)
    requires StartsWith(p, "--par=") && StartsWith(i, "--install=")
    ensures !StartsWith(p, "--install=") && !StartsWith(i, "--par=")
    ensures p != "--sudo" && p != "--debug" && p != "--Debug" && p != "--profile" && p != "--Profile"
    ensures i != "--sudo" && i != "--debug" && i != "--Debug" && i != "--profile" && i != "--Profile"
  {
    assert p[..6][2] == 'p' && p[..6][3] == 'a';
    assert i[..10][2] == 'i' && i[..10][3] == 'n';
    DiffersAt(p, "--install=", 2);
    DiffersAt(i, "--par=", 2);
  }

  /** The optional --debug and --sudo flags of the base options. */
  function Flags(debug: bool, sudo: bool): (r: seq<string>)
    ensures ("--debug" in r <==> debug) && ("--sudo" in r <==> sudo)
    ensures "--Debug" !in r && "--profile" !in r && "--Profile" !in r
  {
    (if debug then ["--debug"] else []) + (if sudo then ["--sudo"] else [])
  }

  /** No optional flag is a job count. */
  lemma FlagsNotPar(debug: bool, sudo: bool)
    ensures forall k :: 0 <= k < |Flags(debug, sudo)| ==> !StartsWith(Flags(debug, sudo)[k], "--par=")
  {
    DiffersAt("--debug", "--par=", 2);
    DiffersAt("--sudo", "--par=", 2);
  }

  /** The base options as head arguments, flags and step options. */
  lemma BaseSplit(here: string, par: nat, debug: bool, sudo: bool, step: seq<string>)
    ensures var p := "--par=" + NatToDecimal(par);
      var i := "--install=" + Join(here, "unix");
      BaseOptions(here, par, debug, sudo) + step == [p, i] + Flags(debug, sudo) + step
      && StartsWith(p, "--par=") && StartsWith(i, "--install=")
  {
    var p := "--par=" + NatToDecimal(par);
    var i := "--install=" + Join(here, "unix");
    assert p[..6] == "--par=";
    assert i[..10] == "--install=";
  }

  /** Past the first, no base option or plain option is a job count. */
  lemma RestNotPar(p: string, i: string, flags: seq<string>, step: seq<string>)
    requires !StartsWith(i, "--par=")
    requires forall k :: 0 <= k < |flags| ==> !StartsWith(flags[k], "--par=")
    requires forall x :: x in step ==> PlainOption(x)
    ensures var opts := [p, i] + flags + step;
      forall k :: 1 <= k < |opts| ==> !StartsWith(opts[k], "--par=")
  {
    var opts := [p, i] + flags + step;
    forall k | 1 <= k < |opts|
      ensures !StartsWith(opts[k], "--par=")
    {
      if k >= 2 + |flags| {
        assert opts[k] == step[k - 2 - |flags|];
        assert opts[k] in step;
      } else if k >= 2 {
        assert opts[k] == flags[k - 2];
      }
    }
  }

  /** Plain options contain none of the flags build.py looks for. */
  lemma StepFlagsAbsent(step: seq<string>)
    requires forall x :: x in step ==> PlainOption(x)
    ensures "--sudo" !in step && "--debug" !in step
    ensures "--Debug" !in step && "--profile" !in step && "--Profile" !in step
  {
    assert !PlainOption("--sudo") && !PlainOption("--debug") && !PlainOption("--Debug");
    assert !PlainOption("--profile") && !PlainOption("--Profile");
  }

  /** The base options, element by element. */
  lemma BaseTokens(here: string, par: nat, debug: bool, sudo: bool, step: seq<string>)
    requires forall x :: x in step ==> PlainOption(x)
    ensures var opts := BaseOptions(here, par, debug, sudo) + step;
      |opts| >= 2 && opts[0] == "--par=" + NatToDecimal(par) && opts[1] == "--install=" + Join(here, "unix")
      && !StartsWith(opts[0], "--install=")
      && (forall k :: 1 <= k < |opts| ==> !StartsWith(opts[k], "--par="))
      && ("--sudo" in opts <==> sudo) && ("--debug" in opts <==> debug)
      && "--Debug" !in opts && "--profile" !in opts && "--Profile" !in opts
  {
    var p := "--par=" + NatToDecimal(par);
    var i := "--install=" + Join(here, "unix");
    BaseSplit(here, par, debug, sudo, step);
    HeadTokens(p, i);
    FlagsNotPar(debug, sudo);
    RestNotPar(p, i, Flags(debug, sudo), step);
    StepFlagsAbsent(step);
  }

  /**
   * Read with this project's build.py option rules (`ParallelOf`,
   * `GetInstallArgs`, `ComputeBuildType`), a sub-build's options ask for
   * exactly par jobs, an install into thirdparty/unix, a Debug build exactly
   * when debug was asked for (Release otherwise), and sudo exactly when it
   * was passed on. The sub-build itself runs cryptoTools' own build.py,
   * which is not part of this model.
   */
  lemma SubBuildOptionsRead(here: string, par: nat, debug: bool, sudo: bool, step: seq<string>,
                            absPath: string -> string, cpuCount: nat)
    requires par >= 1
    requires forall x :: x in step ==> PlainOption(x)
    ensures var opts := BaseOptions(here, par, debug, sudo) + step;
      ParallelOf(opts, cpuCount) == Success(par)
      && GetInstallArgs(opts, absPath) == (true, Some(absPath(Join(here, "unix"))), sudo)
      && ComputeBuildType(opts) == if debug then "Debug" else "Release"
  {
    var opts := BaseOptions(here, par, debug, sudo) + step;
    BaseTokens(here, par, debug, sudo, step);
    ParValuesAppend([opts[0]], opts[1..]);
    assert [opts[0]] + opts[1..] == opts;
    assert [opts[0]][..0] == [];
    ParValuesNone(opts[1..]);
    ParseDecimal(par);
    assert ParValues(opts) == [NatToDecimal(par)];
    assert opts[1..][0] == opts[1];
  }
}
