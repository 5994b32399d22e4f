# Thonny Linux installer, modelled in Dafny

This project models `packaging/linux/install.py`, the script that installs the Thonny
IDE bundle on Linux. It covers these parts of the script:

- **Target resolution.** The script reads zero or one command-line argument. With none, the parent directory is `~/apps`. With one, the argument is stripped of whitespace and trailing slashes and then `~`-expanded. `/thonny` is appended in both cases. Any other argument count is a usage error.
- **Menu directory.** It is the user's `~/.local/share/applications` when the target begins with `/home`, and `/usr/share/applications` otherwise.
- **The `[Y/n]` prompt.** The script asks before clearing an existing target.
- **Clear and copy.** The existing target is removed, the bundle is copied, and then the `templates` directory and the `install` script are removed from the copy.
- **`create_launcher`.** Each of the three launcher files is a template rewritten by one `str.replace` pass per (placeholder, value) pair and written with mode `0o755`. The three files are:
  - the start-menu entry;
  - the desktop shortcut;
  - the uninstaller.
- **Precompilation.** The script runs `python3.5 -m compileall` on the installed `lib`.
- **`try_to_refresh_desktop_and_menus`.** The script runs the first of `kbuildsycoca5`, `kbuildsycoca4` and `kbuildsycoca` that is found. Separately, it runs `update-desktop-database <menu_dir>` when that tool is found.
- **`which`.** This is the copy of Python 3.5's `shutil.which` used to find those tools.

The script's own Python 2 string and `posixpath` operations are modelled exactly as the
script uses them:

- `startswith`, `strip`, `rstrip`, `lower`, `ljust`, `split` and `replace`, including `replace` with an empty needle;
- `dirname`, `join` and `expanduser`.

`PyStr.JoinWith` (Python's `glue.join(parts)`) is not called by the script; it is a helper used to state what `split` and `replace` produce.

The filesystem and the operating system are a `Locator.Host` value. It holds `exists`,
`access`, `isdir` and `normcase` as functions. The process environment is an
`Installer.Env`, which holds the home directory `expanduser` uses for `~` (`$HOME`, or the
user's password-database entry when `HOME` is unset), the user database and `$PATH`.

The driver (`Installer.Install`) is imperative. It returns the exit status and the
ordered list of effects it performs, `Installer.Effect`. The effects are:

- removing a tree;
- copying a tree;
- removing a file;
- writing a launcher;
- running a process.

The driver is proved equal to the functional outcome `Installer.InstallOutcome`. The
module `InstallerFacts` then proves what the script promises about that outcome.

Files:

- `optional.dfy`: `Option`.
- `pystr.dfy`: Python 2 `str` operations.
- `posixpath.dfy`: `os.path`.
- `locator.dfy`: `which`.
- `launchers.dfy`: `create_launcher`.
- `menu_refresh.dfy`: the menu refresher.
- `installer.dfy`: resolution, the prompt and the driver.
- `installer_facts.dfy`: properties of the whole run.

## Behaviour worth noting

- **Prompt.** Although the prompt reads `[Y/n]`, only an answer that is empty, `y` or `Y` once surrounding whitespace is stripped proceeds (`install.py:111-112`). `yes` cancels. See `Installer.ConfirmedExactly` and `InstallerFacts.YesCancels`.
- **Menu directory.** The user's menu directory is chosen when the target text starts with `/home` (`install.py:100`). A target under `/homework` therefore gets the user's menu, while a home directory elsewhere, such as `/users/u`, does not. See `Installer.MenuDirRule` and `InstallerFacts.HomePrefixIsTextual`.
- **Relative targets.** A relative argument is not made absolute: `apps` gives the target `apps/thonny` (`install.py:88, 99`). See `InstallerFacts.RelativeTargetScenario`.

## Model

| member | source | states |
|---|---|---|
| PyStr.StartsWith | packaging/linux/install.py:100 | `target_dir.startswith(prefix)`: the prefix is no longer than the text and equals its first characters |
| PyStr.TrimEnd | packaging/linux/install.py:88 | `rstrip(chars)` keeps a prefix of the input that does not end in a stripped character, and removes only stripped characters |
| PyStr.TrimStart | packaging/linux/install.py:111 | `lstrip` keeps a suffix that does not start with a stripped character, and removes only stripped characters |
| PyStr.Strip | packaging/linux/install.py:88 | `strip()`: `rstrip` then `lstrip` of the whitespace characters; `StripSlice` states what it keeps and removes |
| PyStr.StripSlice | packaging/linux/install.py:111 | `strip()` keeps one contiguous middle slice, and everything removed around it is whitespace |
| PyStr.StripKeeps | packaging/linux/install.py:88 | a string with no whitespace at either end is its own `strip()` |
| PyStr.LowerChar | packaging/linux/install.py:112 | ASCII capitals map to their lower-case letter, and every other character is unchanged |
| PyStr.Lower | packaging/linux/install.py:112 | `lower()` keeps the length and lowers each character independently |
| PyStr.LowerIsY | packaging/linux/install.py:112 | `answer.lower() == "y"` holds exactly for `y` and `Y` |
| PyStr.Repeat | packaging/linux/install.py:94 | `n` copies of the fill character |
| PyStr.LJust | packaging/linux/install.py:94 | `ljust` keeps the text, pads only with the fill character up to the width, and never truncates |
| PyStr.JoinWith | packaging/linux/install.py:66 | a helper, not called by the script: `glue.join(parts)`, the parts in order with the glue between neighbours, used to state `split` and `replace` in `JoinSplitOn`, `SplitJoin`, `ReplaceAllJoinsPieces` and `ReplaceAllEmpty` |
| PyStr.SplitOn | packaging/linux/install.py:66 | `s.split(sep)` for a non-empty separator gives at least one piece; what the pieces are is stated by `SplitOnFirstCut`, which `FirstCutDetermines` shows to fix them, and by `JoinSplitOn`, `SplitOnHead` and `SplitOnPiecesFree`; `split(os.pathsep)` at line 39 is this split on the one-character string `":"` |
| PyStr.SplitOnHead | packaging/linux/install.py:66 | the first piece of a split is a prefix of the text |
| PyStr.SplitOnPiecesFree | packaging/linux/install.py:66 | no piece of a split holds the separator |
| PyStr.SplitOnFirstCut | packaging/linux/install.py:66 | the cuts are made left to right: the first piece is a prefix of the text in which no occurrence of the separator starts inside the first piece; a single piece is the whole text; otherwise the separator occurs right after the first piece and the other pieces are the split of the text after that occurrence. |
| PyStr.FirstCutDetermines | packaging/linux/install.py:66 | any list of pieces that satisfies the first-cut description of `SplitOnFirstCut` is the split itself, so that description fixes every split, self-overlapping separators included |
| PyStr.JoinSplitOn | packaging/linux/install.py:39 | joining the pieces of a split with the separator gives the original text back |
| PyStr.StartsWithChar | packaging/linux/install.py:39 | a text starts with the one-character separator exactly when its first character is that character |
| PyStr.SplitPrefix | packaging/linux/install.py:39 | splitting on a character: a separator-free head followed by the separator is split off as the first piece |
| PyStr.SplitNoSep | packaging/linux/install.py:39 | a text without the separator splits into itself |
| PyStr.SplitJoin | packaging/linux/install.py:39 | splitting the join of separator-free pieces gives back the pieces |
| PyStr.SplitCharPiecesFree | packaging/linux/install.py:39 | no entry of `path.split(os.pathsep)` contains `:` |
| PyStr.ReplaceAll | packaging/linux/install.py:66 | `content.replace(from_str, to_str)`, replacing the non-overlapping occurrences found left to right, and with an empty needle inserting the value before every character and at the end; its meaning is stated by `ReplaceAllJoinsPieces` with `SplitOnFirstCut` and `FirstCutDetermines` for a non-empty needle, by `ReplaceAllEmpty` for the empty one, and by `ReplaceAllSelf`, `ReplaceAllAbsent` and `ReplaceAllWhole` |
| PyStr.ReplaceAllJoinsPieces | packaging/linux/install.py:66 | `s.replace(p, v)` equals `v.join(s.split(p))` for a non-empty `p` |
| PyStr.ReplaceAllEmpty | packaging/linux/install.py:66 | with an empty needle the value goes before every character and at the end: `s.replace("", v) == v.join([""] + list(s) + [""])` |
| PyStr.ReplaceAllSelf | packaging/linux/install.py:66 | replacing a string by itself changes nothing, with an empty needle too |
| PyStr.ReplaceAllAbsent | packaging/linux/install.py:66 | a text with no occurrence of the needle is unchanged |
| PyStr.ReplaceAllWhole | packaging/linux/install.py:66 | a placeholder replaced within itself becomes the value |
| PosixPath.AfterLastSep | packaging/linux/install.py:30 | the position just after the last `/`, with no `/` after it |
| PosixPath.DirName | packaging/linux/install.py:30 | `dirname` is a prefix of the path |
| PosixPath.DirNameNonEmpty | packaging/linux/install.py:30 | a command has a directory part exactly when it contains `/` |
| PosixPath.Join | packaging/linux/install.py:49 | `join(dir, cmd)` is `cmd` when `cmd` is absolute; otherwise it starts with `dir` and ends with `cmd` |
| PosixPath.FindFrom | packaging/linux/install.py:86 | the first `/` at or after a position, or the end when there is none |
| PosixPath.ExpandUser | packaging/linux/install.py:88 | `expanduser` yields an empty path only from an empty path |
| PosixPath.ExpandBareTilde | packaging/linux/install.py:88 | a bare `~` becomes the home directory without trailing slashes, or `/` when nothing is left |
| PosixPath.ExpandHome | packaging/linux/install.py:86 | `~/rest` becomes `$HOME` without trailing slashes, followed by `/rest` |
| Locator.AccessCheck | packaging/linux/install.py:23-25 | `_access_check`: the file exists, has the access mode and is not a directory; `WhichAnswerPasses` states that every answer meets it |
| Locator.SearchString | packaging/linux/install.py:35-36 | the search string is the `path` argument, else `$PATH`, else `os.defpath` (`:/bin:/usr/bin`); a definition used by `WhichSpec` |
| Locator.Search | packaging/linux/install.py:43-52 | the loop over the path entries from entry `k` with the set `seen`; `SearchFindsFirst` states that it returns the first passing entry |
| Locator.WhichSpec | packaging/linux/install.py:30-52 | the value of `which(cmd, mode, path)`; `WhichFirstMatch`, `WhichDirectPath`, `WhichEmptyPath` and `WhichAnswerPasses` state what it is |
| Locator.Which | packaging/linux/install.py:10-52 | `which` checks a command with a directory part directly, finds nothing with an empty search string, and otherwise runs the loop over the entries; together it computes `WhichSpec` |
| Locator.SearchDirs | packaging/linux/install.py:43-52 | the loop over the path entries, with its `seen` set and early return, computes `Search` from the first entry with nothing seen |
| Locator.WhichDirectPath | packaging/linux/install.py:30-33 | a command with a directory part is checked as it is, and the search path is never consulted |
| Locator.WhichEmptyPath | packaging/linux/install.py:35-38 | an empty search string finds nothing |
| Locator.NormSetStep | packaging/linux/install.py:43-47 | `seen` after entry `k` is `seen` before it plus `normcase(dir_k)`, and the entry is skipped exactly when it is not the first with its normalised form |
| Locator.FirstPassing | packaging/linux/install.py:43-51 | the index of the first consulted entry whose `dir/cmd` passes the access check, with every earlier consulted entry failing |
| Locator.SearchFindsFirst | packaging/linux/install.py:43-52 | the loop from entry `k`, having seen the entries before `k`, returns `dir/cmd` of the first passing entry, or None |
| Locator.WhichFirstMatch | packaging/linux/install.py:35-52 | for a bare command, `which` returns `dir/cmd` for the first path entry, skipping repeats, whose file passes; with none, it returns None |
| Locator.WhichAnswerPasses | packaging/linux/install.py:23-25 | whatever `which` returns exists, has the access mode and is not a directory |
| Locator.SearchStep | packaging/linux/install.py:44-47 | an entry that yields nothing moves the loop on with that entry seen |
| Locator.DedupPreservesAnswer | packaging/linux/install.py:43-51 | with a one-to-one `normcase`, skipping repeated entries returns what the plain first-match search returns |
| Locator.DedupHit | packaging/linux/install.py:46-51 | with a one-to-one `normcase`, a passing entry after failing ones is a first occurrence, and both searches return it |
| Locator.WhichAnswerNonEmpty | packaging/linux/install.py:30-51 | for a non-empty command an answer is never `""`, so the truth test on `which`'s result in the refresh step is the test for an answer |
| Locator.WhichIgnoresRepeats | packaging/linux/install.py:39-52 | with a one-to-one `normcase`, `which` equals the plain first-match search over the split path |
| Launchers.ApplyReplacements | packaging/linux/install.py:64-66 | one replace-all pass per pair, first pair first; pairs that replace a placeholder by itself leave the template unchanged |
| Launchers.ApplyReplacementsAppend | packaging/linux/install.py:64-66 | applying two runs of pairs in turn equals applying their concatenation |
| Launchers.CreateLauncher | packaging/linux/install.py:55-71 | the loop applies one `replace` per pair in order, and writes the result to the target file with mode `0o755`; no pairs leave the template unchanged |
| Launchers.SinglePlaceholder | packaging/linux/install.py:126-128 | with one placeholder, the text is the template's pieces glued with the value; the pieces rebuild the template and none of them holds the placeholder, so each occurrence is replaced |
| Launchers.OrderMatters | packaging/linux/install.py:140-142 | when the value for placeholder `p` is placeholder `q`, the pass order decides the text: `q`'s pass after `p`'s rewrites it to `q`'s value, and before `p`'s it leaves `q` in the file |
| MenuRefresh.Found | packaging/linux/install.py:76 | the test `if which(cmd)`: `which` with the default mode and `$PATH` returns a name |
| MenuRefresh.FoundOn | packaging/linux/install.py:76-81 | `Found` as a test on command names, used for the rebuilders at line 76 and for `update-desktop-database` at line 81 |
| MenuRefresh.FirstFound | packaging/linux/install.py:75-78 | the index of the first name that is found, with all earlier names not found |
| MenuRefresh.FirstFoundUnique | packaging/linux/install.py:75-78 | any index with those properties is that index |
| MenuRefresh.RefreshRunsFirstFound | packaging/linux/install.py:73-82 | at most one cache rebuilder runs. One runs exactly when some rebuilder is found, and it is the first found in the fixed order. `update-desktop-database <menu_dir>` runs exactly when it is found |
| MenuRefresh.RefreshCalls | packaging/linux/install.py:73-82 | the processes the refresher runs, in order; `RefreshRunsFirstFound` states which they are |
| MenuRefresh.Probe | packaging/linux/install.py:81 | the test `if which(udd)` answers exactly whether `FoundOn` accepts the name; the rebuilder loop at line 76 applies the same test |
| MenuRefresh.ProbeInOrder | packaging/linux/install.py:75-78 | the loop with `break` tries the names in order and returns the index of the first one the test accepts, `\|names\|` when there is none |
| MenuRefresh.FindCacheTool | packaging/linux/install.py:75-78 | the loop run with the test `which(cmd)` returns the index of the first name `which` finds |
| MenuRefresh.RefreshDesktopAndMenus | packaging/linux/install.py:73-82 | the processes run are exactly `RefreshCalls` on what `which` finds |
| Installer.Expand | packaging/linux/install.py:86-88 | `os.path.expanduser` under the process environment, as used on the argument (lines 86 and 88), on `~/.local/share/applications` (line 101) and on `~/Desktop/Thonny.desktop` (line 133); `PosixPath.ExpandHome` and `PosixPath.ExpandBareTilde` state what it yields |
| Installer.ParentDir | packaging/linux/install.py:85-91 | the parent directory from the command line, or None for a usage error; `ResolveTarget` states what it is |
| Installer.TargetDir | packaging/linux/install.py:99 | the target is the parent directory followed by `/thonny` |
| Installer.MenuDir | packaging/linux/install.py:100-103 | the user's or the system menu directory; `MenuDirRule` states when each is chosen |
| Installer.ResolveTarget | packaging/linux/install.py:85-91 | no argument gives `$HOME/apps`; one argument gives it stripped, without trailing `/`, and `~`-expanded; any other count is a usage error |
| Installer.MenuDirRule | packaging/linux/install.py:99-103 | the menu directory is the user's exactly when the target starts with `/home`, and the system one otherwise |
| Installer.PrintTask | packaging/linux/install.py:93-94 | the `desc` text and a space, padded with dots to at least 70 characters, then a space |
| Installer.Confirmed | packaging/linux/install.py:111-112 | the stripped answer is empty or lower-cases to `y`; `ConfirmedExactly` states which answers those are |
| Installer.ConfirmedExactly | packaging/linux/install.py:111-112 | the prompt proceeds exactly when the stripped answer is empty, `y` or `Y` |
| Installer.CopySteps | packaging/linux/install.py:118-120 | the copy of the distribution into the target, then the removal of the copied `templates` directory and `install` script |
| Installer.UninstallerReplacements | packaging/linux/install.py:142 | the uninstaller's two pairs, in the order given by the dict's iteration order `menuDirFirst` |
| Installer.DesktopTemplate | packaging/linux/install.py:60-61 | the text of `<source_dir>/templates/Thonny.desktop`, which `create_launcher` reads for the menu entry (line 126) and the desktop shortcut (line 132); file contents are a parameter of the model |
| Installer.MenuItem | packaging/linux/install.py:124-128 | the start-menu entry `<menu_dir>/Thonny.desktop`: the desktop template with `$target_dir` replaced, mode `0o755`; `ShortcutsNameTheTarget` states its content |
| Installer.Shortcut | packaging/linux/install.py:131-134 | the desktop shortcut `~/Desktop/Thonny.desktop`, with the same content as the menu entry; `ShortcutsNameTheTarget` states it |
| Installer.Uninstaller | packaging/linux/install.py:138-142 | `<target>/bin/uninstall`: the uninstall template after both replacements, mode `0o755`; `OrderMatters` shows when their order matters |
| Installer.CompileCall | packaging/linux/install.py:145-147 | the argument vector `<target>/bin/python3.5 -m compileall <target>/lib` |
| Installer.DeploySteps | packaging/linux/install.py:118-153 | the effects after the prompt, in order; `DeployShape` states their layout |
| Installer.InstallSteps | packaging/linux/install.py:109-153 | the effects of a run past the prompt: clearing an existing target, then the deployment; `ClearsOnlyTheTarget` and `LaunchersAreExecutable` state what they touch |
| Installer.InstallInto | packaging/linux/install.py:109-153 | exit 1 with nothing done when the target exists and the answer declines, else exit 0 with `InstallSteps`; `ProceedsExactlyOnConsent` states it |
| Installer.InstallOutcome | packaging/linux/install.py:85-153 | a usage error with nothing done, or `InstallInto` the resolved target; `UsageErrorTouchesNothing` and `ProceedsExactlyOnConsent` state it |
| Installer.Install | packaging/linux/install.py:85-153 | the driver's exit status and effects are `InstallOutcome` |
| Installer.Reinstall | packaging/linux/install.py:109-118 | after the prompt: the effects and status are `InstallInto`, which is either clearing then deploying, or exit 1 with nothing done |
| Installer.Deploy | packaging/linux/install.py:118-153 | copy and clean-up, three launchers, precompilation, then menu refresh, in that order |
| InstallerFacts.UsageErrorTouchesNothing | packaging/linux/install.py:85-91 | a wrong argument count exits 1 with no effect |
| InstallerFacts.ProceedsExactlyOnConsent | packaging/linux/install.py:109-116 | the run proceeds exactly when the target is absent or the stripped answer is empty, `y` or `Y`; otherwise it exits 1 with no effect |
| InstallerFacts.DeployShape | packaging/linux/install.py:118-153 | a deployment is the copy, then removal of `templates` and `install`, then the three launchers in order, and after that only processes |
| InstallerFacts.ClearsOnlyTheTarget | packaging/linux/install.py:109-120 | the only trees removed are the existing target, first and only when it was there, and the copied `templates`; the copy comes right after the clearing |
| InstallerFacts.LaunchersAreExecutable | packaging/linux/install.py:124-142 | every file written is one of the menu entry, the desktop shortcut and the uninstaller, with mode `0o755` |
| InstallerFacts.ShortcutsNameTheTarget | packaging/linux/install.py:124-134 | the menu entry and the shortcut hold the desktop template's pieces around `$target_dir`, none of which holds it and which rebuild the template, glued with the target: every `$target_dir` is replaced |
| InstallerFacts.DefaultTargetScenario | packaging/linux/install.py:85-101 | with no argument and `HOME=/home/u`, the target is `/home/u/apps/thonny` and the menu is `/home/u/.local/share/applications` |
| InstallerFacts.OptTargetScenario | packaging/linux/install.py:87-103 | `/opt/` gives the target `/opt/thonny` and the system menu directory |
| InstallerFacts.HomePrefixIsTextual | packaging/linux/install.py:100-101 | a target under `/homework` gets the user's menu directory |
| InstallerFacts.RelativeTargetScenario | packaging/linux/install.py:87-99 | `apps` gives the relative target `apps/thonny` |
| InstallerFacts.YesCancels | packaging/linux/install.py:111-116 | the answer `yes` cancels the run |

## Left out

- Printing: the progress lines, `Done!`, the success summary (`install.py:156-160`) and the messages on the diagnostic stream. `PrintTask` gives the text of a progress line but nothing is emitted.
- Filesystem errors: the `OSError` handler (`install.py:163-166`) is not modelled. Every effect is taken to succeed, so a failure part-way and the exit 1 it causes are not represented.
- Process exit statuses: the source ignores them for the compile step and the menu tools, and the model records only the argument vector.
- Real operating-system behaviour:
  - `os.path.exists`, `os.access`, `os.path.isdir` and `os.path.normcase` are uninterpreted functions of `Locator.Host`;
  - the effects do not update that host: the menu refresher's `which` calls (`install.py:152`) see the host as it was before the run, so a tool that the run's own copying or clearing adds to or removes from `$PATH` is seen by the script but not by the model;
  - `realpath(__file__)` is the `sourceDir` parameter;
  - the template files' contents are the `templates` parameter;
  - the operator's reply to `raw_input` is the `answer` parameter. When standard input is closed, `raw_input` (`install.py:111`) raises `EOFError`, which the `OSError` handler does not catch. The script then ends with status 1 and nothing done. The `answer` parameter cannot express this case. Its outcome equals that of a declined answer, which the model gives;
  - the user database behind `~name` is `Env.userHome`.
- Python 2 dict order: the order in which the uninstaller's two replacements are applied depends on string hashes. It is the `menuDirFirst` parameter, and `Launchers.OrderMatters` shows when it matters.
- Launchers.CreateLauncher: does not create the launcher's parent directory (`install.py:56-58`), because directories are not part of the effect model.
- Locator.Which: the inner loop over `files = [cmd]` (`install.py:41, 48`) always has one element and is folded into the outer loop.
- Byte strings: Python 2 `str` values are modelled as character sequences, so `strip`, `lower` and `ljust` act on characters as the source's byte operations do on ASCII text.

