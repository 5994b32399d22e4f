/**
 * The install driver: resolve the target directory from the command line,
 * choose the menu directory, ask before clearing an existing target, then
 * copy the distribution, write the three launcher files, precompile the
 * library and refresh the desktop menu. The filesystem and the processes it
 * starts are modelled as the ordered list of effects the driver performs.
 */
module Installer {
  import opened Optional
  import opened PyStr
  import opened PosixPath
  import opened Locator
  import opened Launchers
  import opened MenuRefresh

  /** The process environment: the home directory `expanduser` uses for `~` (`$HOME`, or
      the user's password-database entry when it is unset), the user database consulted
      for `~name` (None for an unknown user), and `$PATH`. */
  datatype Env = Env(home: string, userHome: string -> Option<string>, pathVar: Option<string>)

  function Expand(path: string, env: Env): string {
    ExpandUser(path, env.home, env.userHome)
  }

  /** The parent directory named on the command line (`argv` includes the script's own
      name): `~/apps` with no argument, the argument trimmed of whitespace and trailing
      slashes with one argument, and None (a usage error, exit 1) otherwise. */
  function ParentDir(argv: seq<string>, env: Env): Option<string> {
    if |argv| == 1 then Some(Expand("~/apps", env))
    else if |argv| == 2 then Some(Expand(TrimEnd(Strip(argv[1]), {'/'}), env))
    else None
  }

  function TargetDir(parent: string): string {
    parent + "/thonny"
  }

  const SystemMenuDir: string := "/usr/share/applications"

  /** The user's menu directory when the target begins with the text `/home`, the
      system-wide one otherwise. */
  function MenuDir(targetDir: string, env: Env): string {
    if StartsWith(targetDir, "/home") then Expand("~/.local/share/applications", env) else SystemMenuDir
  }

  /** With no argument the target is `$HOME/apps/thonny`; with one it is the argument
      without surrounding whitespace and trailing slashes, `~`-expanded, followed by
      `/thonny`; any other count is a usage error. */
  lemma ResolveTarget(argv: seq<string>, env: Env)
    ensures |argv| == 1 ==> ParentDir(argv, env) == Some(TrimEnd(env.home, {'/'}) + "/apps")
    ensures |argv| == 2 ==>
      var arg := TrimEnd(Strip(argv[1]), {'/'});
      ParentDir(argv, env) == Some(Expand(arg, env))
      && (arg == [] || arg[|arg| - 1] != '/')
      && (!StartsWith(arg, "~") ==> ParentDir(argv, env) == Some(arg))
    ensures (|argv| != 1 && |argv| != 2) <==> ParentDir(argv, env).None?
  {
    ExpandHome("~/apps", env.home, env.userHome);
  }

  /** The menu directory is the user's exactly when the target starts with `/home`. */
  lemma MenuDirRule(targetDir: string, env: Env)
    ensures MenuDir(targetDir, env) == TrimEnd(env.home, {'/'}) + "/.local/share/applications"
        <==> StartsWith(targetDir, "/home")
    ensures MenuDir(targetDir, env) == SystemMenuDir <==> !StartsWith(targetDir, "/home")
  {
    var local := TrimEnd(env.home, {'/'}) + "/.local/share/applications";
    ExpandHome("~/.local/share/applications", env.home, env.userHome);
    assert Expand("~/.local/share/applications", env) == local;
    assert |local| > |SystemMenuDir|;
  }

  /** `print_task(desc)`: the `desc` text and a space, padded with dots to 70
      characters, then one more space. */
  function PrintTask(desc: string): (r: string)
    ensures |r| == (if |desc| + 1 >= 70 then |desc| + 1 else 70) + 1
    ensures r[..|desc| + 1] == desc + " "
    ensures forall i :: |desc| + 1 <= i < |r| - 1 ==> r[i] == '.'
    ensures r[|r| - 1] == ' '
  {
    LJust(desc + " ", 70, '.') + " "
  }

  /** The answer to the "already exists" prompt allows clearing the target. */
  predicate Confirmed(answer: string) {
    var a := Strip(answer);
    a == [] || Lower(a) == "y"
  }

  /** The installer proceeds exactly on an answer that is empty, `y` or `Y` once the
      surrounding whitespace is removed. */
  lemma ConfirmedExactly(answer: string)
    ensures Confirmed(answer) <==> Strip(answer) in {"", "y", "Y"}
  {
    LowerIsY(Strip(answer));
  }

  /** What the driver does to the filesystem and which processes it starts. */
  datatype Effect =
    | RemoveTree(path: string)
    | CopyTree(source: string, target: string)
    | RemoveFile(path: string)
    | Write(launcher: Launcher)
    | Run(argv: seq<string>)

  /** The replacement map of the uninstaller. Python 2 iterates a dict in an order
      fixed by the keys' hashes, which the model leaves as a parameter. */
  function UninstallerReplacements(targetDir: string, menuDir: string, menuDirFirst: bool): seq<Replacement> {
    if menuDirFirst then [("$menu_dir", menuDir), ("$target_dir", targetDir)]
    else [("$target_dir", targetDir), ("$menu_dir", menuDir)]
  }

  function Runs(calls: seq<seq<string>>): (r: seq<Effect>)
    ensures |r| == |calls| && forall i :: 0 <= i < |calls| ==> r[i] == Run(calls[i])
  {
    seq(|calls|, i requires 0 <= i < |calls| => Run(calls[i]))
  }

  /** Copy the distribution, then drop the templates and the installer from the copy. */
  function CopySteps(sourceDir: string, targetDir: string): seq<Effect> {
    [CopyTree(sourceDir, targetDir), RemoveTree(targetDir + "/templates"), RemoveFile(targetDir + "/install")]
  }

  function DesktopTemplate(templates: string -> string, sourceDir: string): string {
    templates(sourceDir + "/templates/Thonny.desktop")
  }

  /** The start-menu entry `<menu_dir>/Thonny.desktop`. */
  function MenuItem(targetDir: string, menuDir: string, template: string): Launcher {
    var path := menuDir + "/Thonny.desktop";
    Launcher(path, ApplyReplacements(template, [("$target_dir", targetDir)]), ExecutableMode)
  }

  /** The desktop shortcut `~/Desktop/Thonny.desktop`. */
  function Shortcut(targetDir: string, env: Env, template: string): Launcher {
    var path := Expand("~/Desktop/Thonny.desktop", env);
    Launcher(path, ApplyReplacements(template, [("$target_dir", targetDir)]), ExecutableMode)
  }

  /** The uninstaller `<target>/bin/uninstall`. */
  function Uninstaller(targetDir: string, menuDir: string, template: string, menuDirFirst: bool): Launcher {
    var path := targetDir + "/bin/uninstall";
    Launcher(path, ApplyReplacements(template, UninstallerReplacements(targetDir, menuDir, menuDirFirst)),
             ExecutableMode)
  }

  /** The precompilation of the installed library; its exit status is ignored. */
  function CompileCall(targetDir: string): seq<string> {
    [targetDir + "/bin/python3.5", "-m", "compileall", targetDir + "/lib"]
  }

  /** The effects after the prompt, in order. */
  function DeploySteps(targetDir: string, menuDir: string, env: Env, host: Host,
                       templates: string -> string, sourceDir: string, menuDirFirst: bool): seq<Effect>
  {
    var desktopTemplate := DesktopTemplate(templates, sourceDir);
    CopySteps(sourceDir, targetDir)
    + [ Write(MenuItem(targetDir, menuDir, desktopTemplate)),
        Write(Shortcut(targetDir, env, desktopTemplate)),
        Write(Uninstaller(targetDir, menuDir, templates(sourceDir + "/templates/uninstall.sh"), menuDirFirst)) ]
    + [Run(CompileCall(targetDir))]
    + Runs(RefreshCalls(menuDir, FoundOn(env.pathVar, host)))
  }

  /** The effects of a run that got past the prompt: the existing target is cleared
      first, then the deployment. */
  function InstallSteps(targetDir: string, menuDir: string, wasPresent: bool, env: Env, host: Host,
                        templates: string -> string, sourceDir: string, menuDirFirst: bool): seq<Effect>
  {
    (if wasPresent then [RemoveTree(targetDir)] else [])
    + DeploySteps(targetDir, menuDir, env, host, templates, sourceDir, menuDirFirst)
  }

  /** The exit status and effects once the target directory is known: cancelled with
      nothing done when it exists and the operator declines, installed otherwise. */
  function InstallInto(targetDir: string, env: Env, host: Host, templates: string -> string,
                       sourceDir: string, answer: string, menuDirFirst: bool): (int, seq<Effect>)
  {
    if host.present(targetDir) && !Confirmed(answer) then (1, [])
    else (0, InstallSteps(targetDir, MenuDir(targetDir, env), host.present(targetDir), env, host,
                          templates, sourceDir, menuDirFirst))
  }

  /** The installer's exit status and effects, given the command line, the environment,
      the filesystem, the templates' text and the operator's answer to the prompt. */
  function InstallOutcome(argv: seq<string>, env: Env, host: Host, templates: string -> string,
                          sourceDir: string, answer: string, menuDirFirst: bool): (int, seq<Effect>)
  {
    match ParentDir(argv, env)
    case None => (1, [])
    case Some(parent) => InstallInto(TargetDir(parent), env, host, templates, sourceDir, answer, menuDirFirst)
  }

  /** The installer as a whole: a usage error, or the installation into the target. */
  method Install(argv: seq<string>, env: Env, host: Host, templates: string -> string,
                 sourceDir: string, answer: string, menuDirFirst: bool)
    returns (exitCode: int, effects: seq<Effect>)
    ensures (exitCode, effects) == InstallOutcome(argv, env, host, templates, sourceDir, answer, menuDirFirst)
  {
    var parent := ParentDir(argv, env);
    if parent.None? {
      return 1, [];
    }
    exitCode, effects := Reinstall(TargetDir(parent.value), env, host, templates, sourceDir, answer, menuDirFirst);
  }

  /** Ask before clearing an existing target, then deploy. */
  method Reinstall(targetDir: string, env: Env, host: Host, templates: string -> string,
                   sourceDir: string, answer: string, menuDirFirst: bool)
    returns (exitCode: int, effects: seq<Effect>)
    ensures (exitCode, effects) == InstallInto(targetDir, env, host, templates, sourceDir, answer, menuDirFirst)
  {
    var menuDir := MenuDir(targetDir, env);
    var present := host.present(targetDir);
    effects := [];
    if present {
      if Confirmed(answer) {
        effects := effects + [RemoveTree(targetDir)];
      } else {
        return 1, effects;
      }
    }
    var deployed := Deploy(targetDir, menuDir, env, host, templates, sourceDir, menuDirFirst);
    ghost var pre := effects;
    effects := effects + deployed;
    exitCode := 0;
    assert pre == (if present then [RemoveTree(targetDir)] else []);
  }

  /** Everything after the prompt: copy, launchers, precompilation, menu refresh. */
  method Deploy(targetDir: string, menuDir: string, env: Env, host: Host, templates: string -> string,
                sourceDir: string, menuDirFirst: bool)
    returns (effects: seq<Effect>)
    ensures effects == DeploySteps(targetDir, menuDir, env, host, templates, sourceDir, menuDirFirst)
  {
    effects := [CopyTree(sourceDir, targetDir)];
    effects := effects + [RemoveTree(targetDir + "/templates")];
    effects := effects + [RemoveFile(targetDir + "/install")];
    assert effects == CopySteps(sourceDir, targetDir);

    var desktopTemplate := templates(sourceDir + "/templates/Thonny.desktop");
    var menuItem := CreateLauncher(desktopTemplate, menuDir + "/Thonny.desktop", [("$target_dir", targetDir)]);
    var shortcut := CreateLauncher(desktopTemplate, Expand("~/Desktop/Thonny.desktop", env), [("$target_dir", targetDir)]);
    var uninstaller := CreateLauncher(templates(sourceDir + "/templates/uninstall.sh"), targetDir + "/bin/uninstall",
                                      UninstallerReplacements(targetDir, menuDir, menuDirFirst));
    assert menuItem == MenuItem(targetDir, menuDir, DesktopTemplate(templates, sourceDir));
    assert shortcut == Shortcut(targetDir, env, DesktopTemplate(templates, sourceDir));
    assert uninstaller == Uninstaller(targetDir, menuDir, templates(sourceDir + "/templates/uninstall.sh"), menuDirFirst);
    effects := effects + [Write(menuItem), Write(shortcut), Write(uninstaller)];

    effects := effects + [Run([targetDir + "/bin/python3.5", "-m", "compileall", targetDir + "/lib"])];

    var calls := RefreshDesktopAndMenus(menuDir, env.pathVar, host);
    effects := effects + Runs(calls);
  }
}
