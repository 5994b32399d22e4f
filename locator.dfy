/**
 * The executable locator `which` (a copy of Python 3.5's `shutil.which`): a
 * command with a directory part is checked directly; otherwise the search path
 * is split on `:`, directories are visited in order skipping those whose
 * `normcase` was already seen, and the first `dir/cmd` that passes the access
 * check is returned.
 */
module Locator {
  import opened Optional
  import opened PyStr
  import opened PosixPath

  /** The access-mode flags `os.F_OK` and `os.X_OK` on POSIX. */
  const F_OK: int := 0
  const X_OK: int := 1
  /** `os.F_OK | os.X_OK`, the default access mode; `F_OK` has no bits set, so the
      bitwise or is the sum. */
  const DefaultMode: int := F_OK + X_OK

  /** `os.pathsep` and `os.defpath` on POSIX. */
  const PathSep: char := ':'
  const DefPath: string := ":/bin:/usr/bin"

  /** What `which` asks of the operating system: `os.path.exists`, `os.access`,
      `os.path.isdir` and `os.path.normcase`. */
  datatype Host = Host(
    present: string -> bool,
    access: (string, int) -> bool,
    isDir: string -> bool,
    normcase: string -> string)

  /** `_access_check`: the file exists, has the mode, and is not a directory. */
  predicate AccessCheck(host: Host, fn: string, mode: int) {
    host.present(fn) && host.access(fn, mode) && !host.isDir(fn)
  }

  /** The search string: the `path` argument, else `$PATH`, else `os.defpath`. */
  function SearchString(path: Option<string>, envPath: Option<string>): string {
    match path
    case Some(p) => p
    case None => match envPath { case Some(e) => e case None => DefPath }
  }

  /** The normalised forms of the directories in `dirs`. */
  function NormSet(host: Host, dirs: seq<string>): set<string> {
    set j | 0 <= j < |dirs| :: host.normcase(dirs[j])
  }

  /** Entry `i` is the first entry with its normalised form. */
  predicate FirstOccurrence(host: Host, dirs: seq<string>, i: int)
    requires 0 <= i < |dirs|
  {
    forall j :: 0 <= j < i ==> host.normcase(dirs[j]) != host.normcase(dirs[i])
  }

  /** Entry `i` is consulted (first of its normalised form) and `dirs[i]/cmd` passes. */
  predicate Passes(host: Host, dirs: seq<string>, cmd: string, mode: int, i: int)
    requires 0 <= i < |dirs|
  {
    FirstOccurrence(host, dirs, i) && AccessCheck(host, Join(dirs[i], cmd), mode)
  }

  /** The loop over the path entries from index `k` on, with the set `seen` of the
      normalised directories already visited. */
  function Search(host: Host, dirs: seq<string>, k: nat, seen: set<string>, cmd: string, mode: int): Option<string>
    decreases |dirs| - k
  {
    if k >= |dirs| then None
    else
      var normdir := host.normcase(dirs[k]);
      if normdir in seen then Search(host, dirs, k + 1, seen, cmd, mode)
      else
        var name := Join(dirs[k], cmd);
        if AccessCheck(host, name, mode) then Some(name)
        else Search(host, dirs, k + 1, seen + {normdir}, cmd, mode)
  }

  /** What `which(cmd, mode, path)` returns. A command has a directory part exactly when
      it holds a `/` (lemma `DirNameNonEmpty`). */
  function WhichSpec(cmd: string, mode: int, path: Option<string>, envPath: Option<string>, host: Host): Option<string> {
    if Sep in cmd then
      (if AccessCheck(host, cmd, mode) then Some(cmd) else None)
    else
      var p := SearchString(path, envPath);
      if p == [] then None else Search(host, SplitOn(p, [PathSep]), 0, {}, cmd, mode)
  }

  /** `which`: a command with a directory part is checked directly, otherwise the
      entries of the search string are searched in order. */
  method Which(cmd: string, mode: int, path: Option<string>, envPath: Option<string>, host: Host)
    returns (r: Option<string>)
    ensures r == WhichSpec(cmd, mode, path, envPath, host)
  {
    DirNameNonEmpty(cmd);
    if DirName(cmd) != [] {
      if AccessCheck(host, cmd, mode) {
        return Some(cmd);
      }
      return None;
    }
    var p := SearchString(path, envPath);
    if p == [] {
      return None;
    }
    r := SearchDirs(SplitOn(p, [PathSep]), cmd, mode, host);
  }

  /** The loop of `which` over the path entries: it fills `seen` with the normalised
      directories visited and returns at the first `dir/cmd` that passes. */
  method SearchDirs(dirs: seq<string>, cmd: string, mode: int, host: Host) returns (r: Option<string>)
    ensures r == Search(host, dirs, 0, {}, cmd, mode)
  {
    var seen: set<string> := {};
    var k := 0;
    while k < |dirs|
      invariant 0 <= k <= |dirs|
      invariant Search(host, dirs, 0, {}, cmd, mode) == Search(host, dirs, k, seen, cmd, mode)
    {
      var normdir := host.normcase(dirs[k]);
      if normdir !in seen {
        seen := seen + {normdir};
        var name := Join(dirs[k], cmd);
        if AccessCheck(host, name, mode) {
          return Some(name);
        }
      }
      k := k + 1;
    }
    return None;
  }

  /** A command with a directory part is checked as it is, and the search path is
      never consulted: any two search paths give the same answer. */
  lemma WhichDirectPath(cmd: string, mode: int, path: Option<string>, envPath: Option<string>,
                        path': Option<string>, envPath': Option<string>, host: Host)
    requires DirName(cmd) != []
    ensures WhichSpec(cmd, mode, path, envPath, host) == if AccessCheck(host, cmd, mode) then Some(cmd) else None
    ensures WhichSpec(cmd, mode, path, envPath, host) == WhichSpec(cmd, mode, path', envPath', host)
  {
    DirNameNonEmpty(cmd);
  }

  /** A bare command with an empty search string is never found. */
  lemma WhichEmptyPath(cmd: string, mode: int, path: Option<string>, envPath: Option<string>, host: Host)
    requires DirName(cmd) == []
    requires SearchString(path, envPath) == ""
    ensures WhichSpec(cmd, mode, path, envPath, host) == None
  {
    DirNameNonEmpty(cmd);
  }

  lemma NormSetStep(host: Host, dirs: seq<string>, k: nat)
    requires k < |dirs|
    ensures NormSet(host, dirs[..k + 1]) == NormSet(host, dirs[..k]) + {host.normcase(dirs[k])}
    ensures host.normcase(dirs[k]) in NormSet(host, dirs[..k]) <==> !FirstOccurrence(host, dirs, k)
  {
    var a := NormSet(host, dirs[..k + 1]);
    var b := NormSet(host, dirs[..k]) + {host.normcase(dirs[k])};
    forall x | x in a ensures x in b {
      var j :| 0 <= j < k + 1 && x == host.normcase(dirs[..k + 1][j]);
      if j < k { assert x == host.normcase(dirs[..k][j]); }
    }
    forall x | x in b ensures x in a {
      if x != host.normcase(dirs[k]) {
        var j :| 0 <= j < k && x == host.normcase(dirs[..k][j]);
        assert x == host.normcase(dirs[..k + 1][j]);
      } else {
        assert x == host.normcase(dirs[..k + 1][k]);
      }
    }
    if host.normcase(dirs[k]) in NormSet(host, dirs[..k]) {
      var j :| 0 <= j < k && host.normcase(dirs[k]) == host.normcase(dirs[..k][j]);
      assert host.normcase(dirs[j]) == host.normcase(dirs[k]);
    }
    if !FirstOccurrence(host, dirs, k) {
      var j :| 0 <= j < k && host.normcase(dirs[j]) == host.normcase(dirs[k]);
      assert host.normcase(dirs[k]) == host.normcase(dirs[..k][j]);
    }
  }

  /** The index of the first consulted entry from `k` on whose `dir/cmd` passes, or
      `|dirs|` when there is none. */
  function FirstPassing(host: Host, dirs: seq<string>, k: nat, cmd: string, mode: int): (i: nat)
    requires k <= |dirs|
    ensures k <= i <= |dirs|
    ensures i < |dirs| ==> Passes(host, dirs, cmd, mode, i)
    ensures forall j :: k <= j < i ==> !Passes(host, dirs, cmd, mode, j)
    decreases |dirs| - k
  {
    if k == |dirs| then k
    else if Passes(host, dirs, cmd, mode, k) then k
    else FirstPassing(host, dirs, k + 1, cmd, mode)
  }

  /** The answer a search gives when it stops at entry `i` (at `|dirs|`: nothing found). */
  function AnswerAt(dirs: seq<string>, cmd: string, i: nat): Option<string> {
    if i < |dirs| then Some(Join(dirs[i], cmd)) else None
  }

  /** The search from entry `k`, having seen exactly the entries before `k`, stops at the
      first consulted entry that passes. */
  lemma {:induction false} SearchFindsFirst(host: Host, dirs: seq<string>, k: nat, cmd: string, mode: int)
    requires k <= |dirs|
    ensures Search(host, dirs, k, NormSet(host, dirs[..k]), cmd, mode)
         == AnswerAt(dirs, cmd, FirstPassing(host, dirs, k, cmd, mode))
    decreases |dirs| - k
  {
    if k < |dirs| {
      NormSetStep(host, dirs, k);
      if Passes(host, dirs, cmd, mode, k) {
        assert FirstPassing(host, dirs, k, cmd, mode) == k;
      } else {
        assert FirstPassing(host, dirs, k, cmd, mode) == FirstPassing(host, dirs, k + 1, cmd, mode);
        SearchStep(host, dirs, k, cmd, mode);
        SearchFindsFirst(host, dirs, k + 1, cmd, mode);
      }
    }
  }

  /** `which` on a bare command: the answer is `dir/cmd` for the first directory of the
      path (skipping repeats by `normcase`) whose `dir/cmd` passes the access check;
      there is no answer exactly when no such directory exists. */
  lemma WhichFirstMatch(cmd: string, mode: int, path: Option<string>, envPath: Option<string>, host: Host)
    requires DirName(cmd) == []
    requires SearchString(path, envPath) != ""
    ensures var dirs := SplitOn(SearchString(path, envPath), [PathSep]);
      WhichSpec(cmd, mode, path, envPath, host) == AnswerAt(dirs, cmd, FirstPassing(host, dirs, 0, cmd, mode))
  {
    DirNameNonEmpty(cmd);
    var dirs := SplitOn(SearchString(path, envPath), [PathSep]);
    assert NormSet(host, dirs[..0]) == {};
    SearchFindsFirst(host, dirs, 0, cmd, mode);
  }

  /** Whatever `which` returns exists, is accessible with the mode, and is not a
      directory. */
  lemma WhichAnswerPasses(cmd: string, mode: int, path: Option<string>, envPath: Option<string>, host: Host)
    ensures var r := WhichSpec(cmd, mode, path, envPath, host);
      r.Some? ==> host.present(r.value) && host.access(r.value, mode) && !host.isDir(r.value)
  {
    DirNameNonEmpty(cmd);
    if Sep !in cmd && SearchString(path, envPath) != "" {
      WhichFirstMatch(cmd, mode, path, envPath, host);
      var dirs := SplitOn(SearchString(path, envPath), [PathSep]);
      var i := FirstPassing(host, dirs, 0, cmd, mode);
      if i < |dirs| {
        assert Passes(host, dirs, cmd, mode, i);
      }
    }
  }

  /** One step of the search, when entry `k` yields no answer (a repeat, or a
      first occurrence that fails the check): it moves on with `dirs[..k + 1]` seen. */
  lemma SearchStep(host: Host, dirs: seq<string>, k: nat, cmd: string, mode: int)
    requires k < |dirs|
    requires host.normcase(dirs[k]) !in NormSet(host, dirs[..k]) ==> !AccessCheck(host, Join(dirs[k], cmd), mode)
    ensures Search(host, dirs, k, NormSet(host, dirs[..k]), cmd, mode)
         == Search(host, dirs, k + 1, NormSet(host, dirs[..k + 1]), cmd, mode)
  {
    var seen := NormSet(host, dirs[..k]);
    var normdir := host.normcase(dirs[k]);
    NormSetStep(host, dirs, k);
    if normdir in seen {
      assert seen + {normdir} == seen;
    }
  }

  /** The search without de-duplication: the first entry whose `dir/cmd` passes. */
  function PlainSearch(host: Host, dirs: seq<string>, k: nat, cmd: string, mode: int): Option<string>
    decreases |dirs| - k
  {
    if k >= |dirs| then None
    else if AccessCheck(host, Join(dirs[k], cmd), mode) then Some(Join(dirs[k], cmd))
    else PlainSearch(host, dirs, k + 1, cmd, mode)
  }

  /** When `normcase` is one-to-one (on POSIX it is the identity), skipping repeated
      directories never changes the answer: a repeat was already tried and failed. */
  lemma {:induction false} DedupPreservesAnswer(host: Host, dirs: seq<string>, k: nat, cmd: string, mode: int)
    requires forall a, b :: host.normcase(a) == host.normcase(b) ==> a == b
    requires k <= |dirs|
    requires forall j :: 0 <= j < k ==> !AccessCheck(host, Join(dirs[j], cmd), mode)
    ensures Search(host, dirs, k, NormSet(host, dirs[..k]), cmd, mode) == PlainSearch(host, dirs, k, cmd, mode)
    decreases |dirs| - k
  {
    if k < |dirs| {
      if AccessCheck(host, Join(dirs[k], cmd), mode) {
        DedupHit(host, dirs, k, cmd, mode);
      } else {
        DedupPreservesAnswer(host, dirs, k + 1, cmd, mode);
        DedupMiss(host, dirs, k, cmd, mode);
      }
    }
  }

  /** An entry that fails the check moves both searches on to the next entry. */
  lemma DedupMiss(host: Host, dirs: seq<string>, k: nat, cmd: string, mode: int)
    requires k < |dirs|
    requires !AccessCheck(host, Join(dirs[k], cmd), mode)
    requires Search(host, dirs, k + 1, NormSet(host, dirs[..k + 1]), cmd, mode) == PlainSearch(host, dirs, k + 1, cmd, mode)
    ensures Search(host, dirs, k, NormSet(host, dirs[..k]), cmd, mode) == PlainSearch(host, dirs, k, cmd, mode)
  {
    SearchStep(host, dirs, k, cmd, mode);
  }

  /** An entry that passes, with only failing entries before it, is reached as a first
      occurrence and is the answer of both searches. */
  lemma DedupHit(host: Host, dirs: seq<string>, k: nat, cmd: string, mode: int)
    requires forall a, b :: host.normcase(a) == host.normcase(b) ==> a == b
    requires k < |dirs|
    requires forall j :: 0 <= j < k ==> !AccessCheck(host, Join(dirs[j], cmd), mode)
    requires AccessCheck(host, Join(dirs[k], cmd), mode)
    ensures Search(host, dirs, k, NormSet(host, dirs[..k]), cmd, mode) == Some(Join(dirs[k], cmd))
    ensures PlainSearch(host, dirs, k, cmd, mode) == Some(Join(dirs[k], cmd))
  {
    NormSetStep(host, dirs, k);
    assert FirstOccurrence(host, dirs, k);
  }

  /** For a non-empty command, an answer of `which` is never the empty string: it is the
      command itself or `dir/cmd`. */
  lemma WhichAnswerNonEmpty(cmd: string, mode: int, path: Option<string>, envPath: Option<string>, host: Host)
    requires cmd != []
    ensures var r := WhichSpec(cmd, mode, path, envPath, host);
      r.Some? ==> r.value != []
  {
    DirNameNonEmpty(cmd);
    if Sep !in cmd && SearchString(path, envPath) != "" {
      WhichFirstMatch(cmd, mode, path, envPath, host);
    }
  }

  /** With a one-to-one `normcase`, `which` on a bare command answers as the plain
      first-match search over the path entries, repeats included. */
  lemma WhichIgnoresRepeats(cmd: string, mode: int, path: Option<string>, envPath: Option<string>, host: Host)
    requires DirName(cmd) == []
    requires SearchString(path, envPath) != ""
    requires forall a, b :: host.normcase(a) == host.normcase(b) ==> a == b
    ensures WhichSpec(cmd, mode, path, envPath, host)
         == PlainSearch(host, SplitOn(SearchString(path, envPath), [PathSep]), 0, cmd, mode)
  {
    DirNameNonEmpty(cmd);
    var dirs := SplitOn(SearchString(path, envPath), [PathSep]);
    assert NormSet(host, dirs[..0]) == {};
    DedupPreservesAnswer(host, dirs, 0, cmd, mode);
  }
}
