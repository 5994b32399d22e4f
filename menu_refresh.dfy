/**
 * `try_to_refresh_desktop_and_menus`: run the first menu-cache rebuilder found
 * on the search path (KDE's `kbuildsycoca5`, then `kbuildsycoca4`, then plain
 * `kbuildsycoca`) and, independently, `update-desktop-database <menu_dir>` when
 * that tool is found. Each process run is recorded by its argument vector; exit
 * statuses are ignored by the source and not modelled.
 */
module MenuRefresh {
  import opened Optional
  import opened Locator

  const CacheTools: seq<string> := ["kbuildsycoca5", "kbuildsycoca4", "kbuildsycoca"]
  const UpdateDesktopDatabase: string := "update-desktop-database"

  /** `which(cmd)` with the default mode and the process's `$PATH` finds something. The
      script tests the answer for truth, which for a string also rejects `""`; `which`
      never answers `""` for a non-empty command name (`WhichAnswerNonEmpty`), so testing
      for an answer at all is the same test. */
  predicate Found(cmd: string, envPath: Option<string>, host: Host) {
    WhichSpec(cmd, DefaultMode, None, envPath, host).Some?
  }

  /** `Found` as a predicate on command names. */
  function FoundOn(envPath: Option<string>, host: Host): string -> bool {
    cmd => Found(cmd, envPath, host)
  }

  /** The index of the first name that `found` accepts, or `|names|` if there is none. */
  function FirstFound(names: seq<string>, found: string -> bool): (i: nat)
    ensures i <= |names|
    ensures i < |names| ==> found(names[i])
    ensures forall j :: 0 <= j < i ==> !found(names[j])
  {
    if names == [] then 0
    else if found(names[0]) then 0
    else 1 + FirstFound(names[1..], found)
  }

  /** The contract of `FirstFound` determines it: the first accepted index is unique. */
  lemma FirstFoundUnique(names: seq<string>, found: string -> bool, k: nat)
    requires k <= |names|
    requires k < |names| ==> found(names[k])
    requires forall j :: 0 <= j < k ==> !found(names[j])
    ensures FirstFound(names, found) == k
  {
  }

  /** The processes the refresher runs, in order, each as its argument vector. */
  function RefreshCalls(menuDir: string, found: string -> bool): seq<seq<string>> {
    var i := FirstFound(CacheTools, found);
    (if i < |CacheTools| then [[CacheTools[i]]] else [])
    + (if found(UpdateDesktopDatabase) then [[UpdateDesktopDatabase, menuDir]] else [])
  }

  /** At most one cache rebuilder runs, and it is the first one found in the fixed order;
      `update-desktop-database` runs, on the menu directory, exactly when it is found. */
  lemma RefreshRunsFirstFound(menuDir: string, found: string -> bool)
    ensures var calls := RefreshCalls(menuDir, found);
      (forall a, b :: 0 <= a < b < |calls| ==> calls[a][0] !in CacheTools || calls[b][0] !in CacheTools)
      && ((exists t :: t in CacheTools && found(t)) <==> |calls| > 0 && calls[0][0] in CacheTools)
      && (forall a, k :: 0 <= a < |calls| && 0 <= k < |CacheTools| && calls[a] == [CacheTools[k]]
             ==> found(CacheTools[k]) && forall j :: 0 <= j < k ==> !found(CacheTools[j]))
      && ([UpdateDesktopDatabase, menuDir] in calls <==> found(UpdateDesktopDatabase))
  {
    var calls := RefreshCalls(menuDir, found);
    var i := FirstFound(CacheTools, found);
    var cache: seq<seq<string>> := if i < |CacheTools| then [[CacheTools[i]]] else [];
    var udd: seq<seq<string>> := if found(UpdateDesktopDatabase) then [[UpdateDesktopDatabase, menuDir]] else [];
    assert calls == cache + udd;
    assert UpdateDesktopDatabase !in CacheTools;
    if exists t :: t in CacheTools && found(t) {
      var t :| t in CacheTools && found(t);
      assert i < |CacheTools|;
    }
    forall a, k | 0 <= a < |calls| && 0 <= k < |CacheTools| && calls[a] == [CacheTools[k]]
      ensures found(CacheTools[k]) && forall j :: 0 <= j < k ==> !found(CacheTools[j])
    {
      assert a < |cache|;
      assert CacheTools[k] == CacheTools[i];
      assert k == i;
    }
  }

  /** The test `if which(cmd)`: true exactly when `FoundOn` accepts the name. */
  method Probe(cmd: string, envPath: Option<string>, host: Host) returns (b: bool)
    ensures b == Found(cmd, envPath, host)
  {
    var hit := Which(cmd, DefaultMode, None, envPath, host);
    b := hit.Some?;
  }

  /** The loop over the rebuilders: the index of the first name `which` finds, or
      `|names|` when it finds none. */
  method FindCacheTool(names: seq<string>, envPath: Option<string>, host: Host) returns (k: nat)
    ensures k == FirstFound(names, FoundOn(envPath, host))
  {
    k := ProbeInOrder(names, FoundOn(envPath, host));
  }

  /** The loop itself: it tries the names in order and stops at the first one the test
      accepts. */
  method ProbeInOrder(names: seq<string>, found: string -> bool) returns (k: nat)
    ensures k == FirstFound(names, found)
  {
    k := 0;
    while k < |names|
      invariant 0 <= k <= |names|
      invariant forall j :: 0 <= j < k ==> !found(names[j])
    {
      if found(names[k]) {
        break;
      }
      k := k + 1;
    }
    FirstFoundUnique(names, found, k);
  }

  /** The refresher: at most one rebuilder, then `update-desktop-database` if found. */
  method RefreshDesktopAndMenus(menuDir: string, envPath: Option<string>, host: Host)
    returns (calls: seq<seq<string>>)
    ensures calls == RefreshCalls(menuDir, FoundOn(envPath, host))
  {
    var k := FindCacheTool(CacheTools, envPath, host);
    calls := if k < |CacheTools| then [[CacheTools[k]]] else [];
    var udd := Probe(UpdateDesktopDatabase, envPath, host);
    if udd {
      calls := calls + [[UpdateDesktopDatabase, menuDir]];
    }
  }
}
