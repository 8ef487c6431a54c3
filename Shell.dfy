/**
 * The machine the build scripts drive: its platform, the tools
 * `shutil.which` finds, the directories that exist, and the log of the
 * commands run on it so far.  A script's effect is the commands it appends.
 */
module Shell {
  import opened Wrappers

  /** One `subprocess.run`: the argument vector and the working directory (`None` for the current one). */
  datatype Command = Command(argv: seq<string>, cwd: Option<string>)

  /** How a script ends: normally, by `sys.exit(code)`, or by an uncaught exception. */
  datatype Outcome = Finished | Exited(code: int) | Raised(message: string)

  /** The argument vector actually run: behind `sudo` when asked for, except on Windows. */
  function Privileged(useSudo: bool, windows: bool, argv: seq<string>): (r: seq<string>)
    ensures r == argv || r == ["sudo"] + argv
  {
    if useSudo && !windows then ["sudo"] + argv else argv
  }

  class Host {
    /** `platform.system() == "Windows"`. */
    const windows: bool
    /** `shutil.which`: each tool found on PATH, with its full path. */
    const which: map<string, string>
    /** The directories that exist before the script starts. */
    const dirs: set<string>
    /** The commands run so far, oldest first. */
    var issued: seq<Command>

    constructor (windows: bool, which: map<string, string>, dirs: set<string>)
      ensures this.windows == windows && this.which == which && this.dirs == dirs
      ensures issued == []
    {
      this.windows, this.which, this.dirs := windows, which, dirs;
      issued := [];
    }

    /** `run(cmd, cwd, use_sudo)`: the command is run, behind `sudo` when asked for and not on Windows. */
    method Run(argv: seq<string>, cwd: Option<string>, useSudo: bool)
      modifies this`issued
      ensures issued == old(issued) + [Command(Privileged(useSudo, windows, argv), cwd)]
    {
      var cmd := argv;
      if useSudo && !windows {
        cmd := ["sudo"] + cmd;
      }
      issued := issued + [Command(cmd, cwd)];
    }
  }
}
