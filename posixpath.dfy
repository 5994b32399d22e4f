/**
 * The `os.path` functions the installer calls, with their POSIX meaning
 * (`posixpath`): `dirname`, `join` and `expanduser`. The user database that
 * `expanduser` consults for `~name` is a parameter.
 */
module PosixPath {
  import opened Optional
  import opened PyStr

  const Sep: char := '/'

  /** The index just past the last `/` of `p`, or 0 when `p` has none. */
  function AfterLastSep(p: string): (i: nat)
    ensures i <= |p|
    ensures i > 0 ==> p[i - 1] == Sep
    ensures forall j :: i <= j < |p| ==> p[j] != Sep
  {
    if p == [] then 0
    else if p[|p| - 1] == Sep then |p|
    else AfterLastSep(p[..|p| - 1])
  }

  predicate AllSeps(s: string) {
    forall j :: 0 <= j < |s| ==> s[j] == Sep
  }

  /** `os.path.dirname(p)`: everything up to the last `/`, with trailing slashes removed
      unless the head is made of slashes only. */
  function DirName(p: string): (r: string)
    ensures |r| <= |p| && r == p[..|r|]
  {
    var head := p[..AfterLastSep(p)];
    if head != [] && !AllSeps(head) then TrimEnd(head, {Sep}) else head
  }

  /** A path has a directory part exactly when it contains a `/`. */
  lemma DirNameNonEmpty(p: string)
    ensures DirName(p) != [] <==> Sep in p
  {
    var i := AfterLastSep(p);
    var head := p[..i];
    if Sep in p {
      var k :| 0 <= k < |p| && p[k] == Sep;
      assert i > 0;
      if !AllSeps(head) {
        var j :| 0 <= j < |head| && head[j] != Sep;
        var t := TrimEnd(head, {Sep});
        assert j < |t|;
      }
    } else {
      assert i == 0;
    }
  }

  /** `os.path.join(a, b)`. */
  function Join(a: string, b: string): (r: string)
    ensures StartsWith(b, [Sep]) ==> r == b
    ensures !StartsWith(b, [Sep]) ==> |r| >= |a| + |b| && r[..|a|] == a && r[|r| - |b|..] == b
  {
    if StartsWith(b, [Sep]) then b
    else if a == [] || a[|a| - 1] == Sep then a + b
    else a + [Sep] + b
  }

  /** The first index at or after `start` holding `c`, or `|s|`. */
  function FindFrom(s: string, c: char, start: nat): (i: nat)
    requires start <= |s|
    ensures start <= i <= |s|
    ensures i < |s| ==> s[i] == c
    ensures forall j :: start <= j < i ==> s[j] != c
    decreases |s| - start
  {
    if start == |s| then |s| else if s[start] == c then start else FindFrom(s, c, start + 1)
  }

  /** `os.path.expanduser(path)`: a leading `~` or `~name` up to the first `/` is replaced
      by that user's home directory with its trailing slashes removed; an unknown user
      leaves the path as it is; an empty result becomes `/`. */
  function ExpandUser(path: string, home: string, userHome: string -> Option<string>): (r: string)
    ensures r == [] ==> path == []
  {
    if !StartsWith(path, "~") then path
    else
      var i := FindFrom(path, Sep, 1);
      var dir := if i == 1 then Some(home) else userHome(path[1..i]);
      if dir.None? then path
      else
        var expanded := TrimEnd(dir.value, {Sep}) + path[i..];
        if expanded == [] then [Sep] else expanded
  }

  /** `~/rest` expands to the home directory, trailing slashes removed, followed by `/rest`. */
  lemma ExpandHome(path: string, home: string, userHome: string -> Option<string>)
    requires StartsWith(path, "~/")
    ensures ExpandUser(path, home, userHome) == TrimEnd(home, {Sep}) + path[1..]
  {
    assert StartsWith(path, "~");
    assert path[1] == Sep;
    assert FindFrom(path, Sep, 1) == 1;
  }

  /** A bare `~` expands to the home directory with its trailing slashes removed, or to
      `/` when nothing is left of it. */
  lemma ExpandBareTilde(path: string, home: string, userHome: string -> Option<string>)
    requires path == "~"
    ensures ExpandUser(path, home, userHome) == if TrimEnd(home, {Sep}) == [] then [Sep] else TrimEnd(home, {Sep})
  {
    assert StartsWith(path, "~");
    assert FindFrom(path, Sep, 1) == 1;
    assert path[1..] == [];
  }
}
