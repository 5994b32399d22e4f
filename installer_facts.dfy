/**
 * What the install driver promises, stated over its specification:
 * a usage error or a declined prompt touches nothing, the existing target is
 * cleared only with the operator's consent and before anything is copied,
 * every launcher is written executable with every placeholder replaced, and
 * the worked scenarios of the command line.
 */
module InstallerFacts {
  import opened Optional
  import opened PyStr
  import opened Launchers
  import opened Installer

  /** A wrong argument count exits with status 1 before anything is done. */
  lemma UsageErrorTouchesNothing(argv: seq<string>, env: Env, host: Locator.Host, templates: string -> string,
                                 sourceDir: string, answer: string, menuDirFirst: bool)
    requires |argv| != 1 && |argv| != 2
    ensures InstallOutcome(argv, env, host, templates, sourceDir, answer, menuDirFirst) == (1, [])
  {
    ResolveTarget(argv, env);
  }

  /** The run goes on exactly when the target is absent or the operator's answer, without
      surrounding whitespace, is empty, `y` or `Y`, and then performs the installation
      steps; otherwise it exits with status 1 and nothing is done, the existing target
      included. */
  lemma ProceedsExactlyOnConsent(targetDir: string, env: Env, host: Locator.Host, templates: string -> string,
                                 sourceDir: string, answer: string, menuDirFirst: bool)
    ensures var (code, effects) := InstallInto(targetDir, env, host, templates, sourceDir, answer, menuDirFirst);
      (code == 0 <==> !host.present(targetDir) || Strip(answer) in {"", "y", "Y"})
      && (code != 0 ==> code == 1 && effects == [])
      && (code == 0 ==> effects == InstallSteps(targetDir, MenuDir(targetDir, env), host.present(targetDir),
                                                env, host, templates, sourceDir, menuDirFirst))
  {
    ConfirmedExactly(answer);
  }

  /** The layout of a deployment: the copy and its clean-up, the three launcher files
      written in order, then only processes. */
  ghost predicate DeployLayout(d: seq<Effect>, sourceDir: string, targetDir: string, launchers: seq<Launcher>) {
    |launchers| == 3 && |d| >= 7
    && d[..3] == [CopyTree(sourceDir, targetDir), RemoveTree(targetDir + "/templates"),
                  RemoveFile(targetDir + "/install")]
    && (forall i :: 3 <= i < 6 ==> d[i] == Write(launchers[i - 3]))
    && (forall i :: 6 <= i < |d| ==> d[i].Run?)
  }

  lemma LayoutOf(copy: seq<Effect>, launchers: seq<Launcher>, compile: Effect, runs: seq<Effect>)
    requires |copy| == 3 && |launchers| == 3 && compile.Run?
    requires forall i :: 0 <= i < |runs| ==> runs[i].Run?
    ensures var d := copy + [Write(launchers[0]), Write(launchers[1]), Write(launchers[2])] + [compile] + runs;
      |d| >= 7 && d[..3] == copy
      && (forall i :: 3 <= i < 6 ==> d[i] == Write(launchers[i - 3]))
      && (forall i :: 6 <= i < |d| ==> d[i].Run?)
  {
    var d := copy + [Write(launchers[0]), Write(launchers[1]), Write(launchers[2])] + [compile] + runs;
    forall i | 6 <= i < |d| ensures d[i].Run? {
      if i > 6 {
        assert d[i] == runs[i - 7];
      }
    }
  }

  /** Every deployment has that layout, with the menu entry, the desktop shortcut and
      the uninstaller as its launchers. */
  lemma DeployShape(targetDir: string, menuDir: string, env: Env, host: Locator.Host,
                    templates: string -> string, sourceDir: string, menuDirFirst: bool)
    ensures DeployLayout(DeploySteps(targetDir, menuDir, env, host, templates, sourceDir, menuDirFirst),
                         sourceDir, targetDir,
                         [MenuItem(targetDir, menuDir, DesktopTemplate(templates, sourceDir)),
                          Shortcut(targetDir, env, DesktopTemplate(templates, sourceDir)),
                          Uninstaller(targetDir, menuDir, templates(sourceDir + "/templates/uninstall.sh"), menuDirFirst)])
  {
    var launchers := [MenuItem(targetDir, menuDir, DesktopTemplate(templates, sourceDir)),
                      Shortcut(targetDir, env, DesktopTemplate(templates, sourceDir)),
                      Uninstaller(targetDir, menuDir, templates(sourceDir + "/templates/uninstall.sh"), menuDirFirst)];
    LayoutOf(CopySteps(sourceDir, targetDir), launchers, Run(CompileCall(targetDir)),
             Runs(MenuRefresh.RefreshCalls(menuDir, MenuRefresh.FoundOn(env.pathVar, host))));
  }

  /** Clearing the target before a laid-out deployment removes only the target, first,
      and the copied templates. */
  lemma ClearingOf(pre: seq<Effect>, d: seq<Effect>, sourceDir: string, targetDir: string,
                   launchers: seq<Launcher>, wasPresent: bool)
    requires DeployLayout(d, sourceDir, targetDir, launchers)
    requires pre == if wasPresent then [RemoveTree(targetDir)] else []
    ensures var effects := pre + d;
      (forall i :: 0 <= i < |effects| && effects[i].RemoveTree? ==>
         effects[i].path == targetDir + "/templates" || (i == 0 && effects[i].path == targetDir && wasPresent))
      && (if wasPresent then effects[..2] == [RemoveTree(targetDir), CopyTree(sourceDir, targetDir)]
          else effects[0] == CopyTree(sourceDir, targetDir))
  {
    var effects := pre + d;
    forall i | 0 <= i < |effects| && effects[i].RemoveTree?
      ensures effects[i].path == targetDir + "/templates" || (i == 0 && effects[i].path == targetDir && wasPresent)
    {
      if i >= |pre| {
        var j := i - |pre|;
        assert effects[i] == d[j];
        assert j < 3;
        assert d[j] == d[..3][j];
      }
    }
    assert effects[|pre|] == d[..3][0];
  }

  /** The only trees removed are the existing target, first of all and only when it was
      there, and the copied `templates` directory; the copy follows the clearing. */
  lemma ClearsOnlyTheTarget(targetDir: string, menuDir: string, wasPresent: bool, env: Env, host: Locator.Host,
                            templates: string -> string, sourceDir: string, menuDirFirst: bool)
    ensures var effects := InstallSteps(targetDir, menuDir, wasPresent, env, host, templates, sourceDir, menuDirFirst);
      (forall i :: 0 <= i < |effects| && effects[i].RemoveTree? ==>
         effects[i].path == targetDir + "/templates" || (i == 0 && effects[i].path == targetDir && wasPresent))
      && (if wasPresent then effects[..2] == [RemoveTree(targetDir), CopyTree(sourceDir, targetDir)]
          else effects[0] == CopyTree(sourceDir, targetDir))
  {
    var launchers := [MenuItem(targetDir, menuDir, DesktopTemplate(templates, sourceDir)),
                      Shortcut(targetDir, env, DesktopTemplate(templates, sourceDir)),
                      Uninstaller(targetDir, menuDir, templates(sourceDir + "/templates/uninstall.sh"), menuDirFirst)];
    DeployShape(targetDir, menuDir, env, host, templates, sourceDir, menuDirFirst);
    ClearingOf(if wasPresent then [RemoveTree(targetDir)] else [],
               DeploySteps(targetDir, menuDir, env, host, templates, sourceDir, menuDirFirst),
               sourceDir, targetDir, launchers, wasPresent);
  }

  /** Only the launchers of a laid-out deployment are written. */
  lemma WritesOf(pre: seq<Effect>, d: seq<Effect>, sourceDir: string, targetDir: string, launchers: seq<Launcher>)
    requires DeployLayout(d, sourceDir, targetDir, launchers)
    requires forall i :: 0 <= i < |pre| ==> !pre[i].Write?
    ensures forall e :: e in pre + d && e.Write? ==> e.launcher in launchers
  {
    forall e | e in pre + d && e.Write? ensures e.launcher in launchers {
      var i :| 0 <= i < |pre + d| && (pre + d)[i] == e;
      var j := i - |pre|;
      assert e == d[j];
      assert 3 <= j < 6;
      assert e.launcher == launchers[j - 3];
    }
  }

  /** Every file written is one of the three launchers, with mode 0o755. */
  lemma LaunchersAreExecutable(targetDir: string, menuDir: string, wasPresent: bool, env: Env, host: Locator.Host,
                               templates: string -> string, sourceDir: string, menuDirFirst: bool)
    ensures var effects := InstallSteps(targetDir, menuDir, wasPresent, env, host, templates, sourceDir, menuDirFirst);
      forall e :: e in effects && e.Write? ==>
        e.launcher.mode == ExecutableMode
        && e.launcher.path in {menuDir + "/Thonny.desktop", Expand("~/Desktop/Thonny.desktop", env),
                               targetDir + "/bin/uninstall"}
  {
    var launchers := [MenuItem(targetDir, menuDir, DesktopTemplate(templates, sourceDir)),
                      Shortcut(targetDir, env, DesktopTemplate(templates, sourceDir)),
                      Uninstaller(targetDir, menuDir, templates(sourceDir + "/templates/uninstall.sh"), menuDirFirst)];
    var pre: seq<Effect> := if wasPresent then [RemoveTree(targetDir)] else [];
    DeployShape(targetDir, menuDir, env, host, templates, sourceDir, menuDirFirst);
    WritesOf(pre, DeploySteps(targetDir, menuDir, env, host, templates, sourceDir, menuDirFirst),
             sourceDir, targetDir, launchers);
    LauncherTargets(targetDir, menuDir, env, templates, sourceDir, menuDirFirst);
  }

  /** The three launchers go to the menu entry, the desktop shortcut and the uninstaller,
      each with mode 0o755. */
  lemma LauncherTargets(targetDir: string, menuDir: string, env: Env, templates: string -> string,
                        sourceDir: string, menuDirFirst: bool)
    ensures forall l :: l in [MenuItem(targetDir, menuDir, DesktopTemplate(templates, sourceDir)),
                              Shortcut(targetDir, env, DesktopTemplate(templates, sourceDir)),
                              Uninstaller(targetDir, menuDir, templates(sourceDir + "/templates/uninstall.sh"), menuDirFirst)] ==>
      l.mode == ExecutableMode
      && l.path in {menuDir + "/Thonny.desktop", Expand("~/Desktop/Thonny.desktop", env), targetDir + "/bin/uninstall"}
  {
  }

  /** The menu entry and the desktop shortcut both hold the desktop template with every
      `$target_dir` replaced by the target directory: the template's pieces around the
      placeholder, none of which holds it, glued with the target. */
  lemma ShortcutsNameTheTarget(targetDir: string, menuDir: string, env: Env, templates: string -> string,
                               sourceDir: string)
    ensures var expected := JoinWith(SplitOn(DesktopTemplate(templates, sourceDir), "$target_dir"), targetDir);
      MenuItem(targetDir, menuDir, DesktopTemplate(templates, sourceDir))
        == Launcher(menuDir + "/Thonny.desktop", expected, ExecutableMode)
      && Shortcut(targetDir, env, DesktopTemplate(templates, sourceDir))
        == Launcher(Expand("~/Desktop/Thonny.desktop", env), expected, ExecutableMode)
    ensures var pieces := SplitOn(DesktopTemplate(templates, sourceDir), "$target_dir");
      JoinWith(pieces, "$target_dir") == DesktopTemplate(templates, sourceDir)
      && forall k, i :: 0 <= k < |pieces| ==> !OccursAt(pieces[k], "$target_dir", i)
  {
    SinglePlaceholder(DesktopTemplate(templates, sourceDir), "$target_dir", targetDir);
  }

  /** With no argument and `HOME=/home/u`: the target is `/home/u/apps/thonny` and the
      menu entry goes under `/home/u/.local/share/applications`. */
  lemma DefaultTargetScenario(env: Env)
    requires env.home == "/home/u"
    ensures ParentDir(["install"], env) == Some(env.home + "/apps")
    ensures MenuDir(TargetDir(env.home + "/apps"), env) == env.home + "/.local/share/applications"
  {
    ResolveTarget(["install"], env);
    assert TrimEnd(env.home, {'/'}) == env.home;
    MenuDirRule(TargetDir(env.home + "/apps"), env);
    assert StartsWith(TargetDir(env.home + "/apps"), "/home");
  }

  /** With the argument `/opt/`: the trailing slash goes, the target is `/opt/thonny`,
      and the menu entry goes to the system-wide directory. */
  lemma OptTargetScenario(env: Env, arg: string)
    requires arg == "/opt/"
    ensures ParentDir(["install", arg], env) == Some("/opt")
    ensures TargetDir("/opt") == "/opt/thonny"
    ensures MenuDir("/opt/thonny", env) == "/usr/share/applications"
  {
    StripKeeps(arg);
    assert arg[..4] == "/opt";
    assert TrimEnd(arg, {'/'}) == TrimEnd(arg[..4], {'/'});
    assert "/opt/thonny"[1] != "/home"[1];
  }

  /** The `/home` test is on the text, not on path components: a target under
      `/homework` also gets the user's menu directory. */
  lemma HomePrefixIsTextual(env: Env)
    ensures MenuDir("/homework/thonny", env) == TrimEnd(env.home, {'/'}) + "/.local/share/applications"
  {
    MenuDirRule("/homework/thonny", env);
    assert StartsWith("/homework/thonny", "/home");
  }

  /** A relative argument stays relative: `apps` gives the target `apps/thonny`. */
  lemma RelativeTargetScenario(env: Env, arg: string)
    requires arg == "apps"
    ensures ParentDir(["install", arg], env) == Some("apps")
    ensures TargetDir(arg) == "apps/thonny"
  {
    StripKeeps(arg);
  }

  /** The answer `yes` cancels: only the whole answer `y` or `Y` is accepted. */
  lemma YesCancels(answer: string)
    requires answer == "yes"
    ensures !Confirmed(answer)
  {
    StripKeeps(answer);
    assert |Lower(answer)| == 3;
  }
}
