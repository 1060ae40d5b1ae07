/** One invocation of ucd (main.go): the maintenance commands, the choice of the target
    directory by a fixed precedence of modes, the visit that follows a successful change of
    directory, and the stash entry a visit may add. */
module Ucd {
  import opened Strings
  import opened Records
  import opened Utilities

  datatype Option<T> = None | Some(value: T)

  /** The Go runtime panics the model covers. */
  datatype Panic =
    | MissingArgument       // args[0] with no argument given
    | StashIndexOutOfRange  // indexing the sorted stash past its end
    | NegativeRepeatCount   // make([]string, n) with n < 0

  /** How a run ends. */
  datatype Exit =
    | ChangeTo(path: string)  // prints the directory for the shell to cd into
    | ReturnCwd               // prints "." (stay where you are)
    | Fatal                   // log.Fatalln: nothing on standard output
    | Panicked(reason: Panic)

  /** What the shell function reads from standard output. */
  function Stdout(x: Exit): (out: string)
    ensures x.ChangeTo? ==> out == x.path
    ensures x.ReturnCwd? ==> out == "."
    ensures x.Fatal? || x.Panicked? ==> out == ""
  {
    match x
    case ChangeTo(p) => p
    case ReturnCwd => "."
    case _ => ""
  }

  /** The parsed command line: the flags of main.go and the remaining arguments.
      `numRepeat` defaults to 1, the other numbers to 0 and the strings to "". */
  datatype Request = Request(
    args: seq<string>,
    help: bool, version: bool,
    clear: bool, clearLimit: bool, clearStash: bool,
    list: bool, listStash: bool,
    modifyAlias: int,
    dynamicSwap: int, aliasPath: string, historyPath: int, stashPath: int, numRepeat: int,
    stash: bool, alias: string)

  /** Everything a run takes from outside the store: the configured display limit, the
      home and current directories, the two clock readings, the iteration orders Go picks
      for the maps, the file system's answer to a change of directory (from a directory,
      to a path: the new working directory, or None when the path is invalid) and the
      store's alias check, whose body is not part of this model. */
  datatype Env = Env(
    maxMRUDisplay: int,
    home: string, cwd: seq<string>,
    visitedAt: string, stashedAt: string,
    pathOrder: seq<string>, stashOrder: seq<string>, aliasOrder: seq<string>,
    chdir: (seq<string>, string) -> Option<seq<string>>,
    aliasExists: (map<string, PathRecord>, map<string, StashRecord>, string) -> bool)

  /** The iteration orders are orders of the store's maps. */
  ghost predicate OrdersOf(env: Env, paths: map<string, PathRecord>, stash: map<string, StashRecord>)
  {
    IsEnumeration(env.pathOrder, paths.Keys) &&
    IsEnumeration(env.stashOrder, stash.Keys) &&
    IsEnumeration(env.aliasOrder, stash.Keys)
  }

  /** The text os.Getwd returns for a directory given by its segments. */
  function AbsPath(dir: seq<string>): (p: string)
    ensures |p| >= 1 && p[0] == '/'
  {
    "/" + Join(dir, "/")
  }

  // ---------------------------------------------------------------------------------
  // Maintenance commands

  /** A negative display limit stands for "as many as there are path records". */
  function EffectiveLimit(maxMRUDisplay: int, size: nat): (limit: nat)
    ensures maxMRUDisplay >= 0 ==> limit == maxMRUDisplay
    ensures maxMRUDisplay < 0 ==> limit == size
  {
    if maxMRUDisplay < 0 then size else maxMRUDisplay
  }

  /** With a negative display limit, clearing to the limit removes nothing. */
  lemma NegativeLimitKeepsAll(paths: map<string, PathRecord>, e: seq<string>, maxMRUDisplay: int)
    requires IsEnumeration(e, paths.Keys) && maxMRUDisplay < 0
    ensures Evict(paths, RecencyOrder(PathStamps(paths), e), EffectiveLimit(maxMRUDisplay, |paths|)) == paths
  {
    EvictKeepsNewest(paths, e, |paths|);
  }

  method ClearHistory(r: Records)
    modifies r
    ensures r.pathRecords == map[] && r.stashRecords == old(r.stashRecords)
  {
    r.pathRecords := map[];
  }

  method ClearStash(r: Records)
    modifies r
    ensures r.stashRecords == map[] && r.pathRecords == old(r.pathRecords)
  {
    r.stashRecords := map[];
  }

  /** The stash with the alias of `key` replaced. Reading a missing key yields Go's zero
      record, so a missing key is inserted with an empty timestamp. */
  function Realias(stash: map<string, StashRecord>, key: string, alias: string): (r: map<string, StashRecord>)
    ensures r.Keys == stash.Keys + {key}
    ensures r[key].alias == alias
    ensures key in stash ==> r[key].timestamp == stash[key].timestamp
    ensures forall k :: k in stash && k != key ==> r[k] == stash[k]
  {
    var sr := if key in stash then stash[key] else StashRecord("", "");
    stash[key := sr.(alias := alias)]
  }

  method ModifyAlias(r: Records, key: string, alias: string)
    modifies r
    ensures r.stashRecords == Realias(old(r.stashRecords), key, alias)
    ensures r.pathRecords == old(r.pathRecords)
  {
    var sr := if key in r.stashRecords then r.stashRecords[key] else StashRecord("", "");
    sr := sr.(alias := alias);
    r.stashRecords := r.stashRecords[key := sr];
  }

  // ---------------------------------------------------------------------------------
  // Visits and stash entries

  /** Counts the visit of `path` at time `now`: an existing record gets one more visit and
      the new timestamp, a new path starts at one visit. */
  function RecordVisit(m: map<string, PathRecord>, path: string, now: string): (r: map<string, PathRecord>)
    ensures r.Keys == m.Keys + {path}
    ensures r[path].timestamp == now
    ensures r[path].count == if path in m then m[path].count + 1 else 1
    ensures forall k :: k in m && k != path ==> r[k] == m[k]
  {
    if path in m then m[path := m[path].(count := m[path].count + 1, timestamp := now)]
    else m[path := PathRecord(1, now)]
  }

  predicate CountsPositive(m: map<string, PathRecord>)
  {
    forall k :: k in m ==> m[k].count >= 1
  }

  /** Every path record counts at least one visit, and visits keep it so. */
  lemma VisitKeepsCountsPositive(m: map<string, PathRecord>, path: string, now: string)
    requires CountsPositive(m)
    ensures CountsPositive(RecordVisit(m, path, now))
  {
  }

  /** A visit stamped later than every record puts its path first in the recency order,
      so history entry 1 is the directory visited last. */
  lemma VisitComesFirst(m: map<string, PathRecord>, path: string, now: string, e: seq<string>)
    requires forall k :: k in m ==> Less(m[k].timestamp, now)
    requires IsEnumeration(e, RecordVisit(m, path, now).Keys)
    ensures var order := RecencyOrder(PathStamps(RecordVisit(m, path, now)), e);
            |order| != 0 && order[0] == path
  {
    var v := RecordVisit(m, path, now);
    forall k | k in v && k != path
      ensures Less(PathStamps(v)[k], PathStamps(v)[path])
    {
    }
    NewestComesFirst(PathStamps(v), e, path);
  }

  /** Clearing down to a limit of at least one right after a visit stamped later than
      every record keeps the visited path. */
  lemma VisitSurvivesEviction(m: map<string, PathRecord>, path: string, now: string, e: seq<string>, limit: nat)
    requires forall k :: k in m ==> Less(m[k].timestamp, now)
    requires IsEnumeration(e, RecordVisit(m, path, now).Keys) && limit >= 1
    ensures var v := RecordVisit(m, path, now);
            path in Evict(v, RecencyOrder(PathStamps(v), e), limit)
  {
    var v := RecordVisit(m, path, now);
    var order := RecencyOrder(PathStamps(v), e);
    VisitComesFirst(m, path, now, e);
    RecencyOrderEnumerates(PathStamps(v), e);
    EvictKeepsPrefix(v, order, limit);
    if |order| > limit {
      assert order[..limit][0] == path;
    }
  }

  /** A new stash entry for `path`, replacing any earlier one. */
  function StashInsert(stash: map<string, StashRecord>, path: string, alias: string, now: string): (r: map<string, StashRecord>)
    ensures r.Keys == stash.Keys + {path}
    ensures r[path] == StashRecord(now, alias)
    ensures forall k :: k in stash && k != path ==> r[k] == stash[k]
  {
    stash[path := StashRecord(now, alias)]
  }

  /** No two stash entries share a non-empty alias. */
  predicate AliasesUnique(stash: map<string, StashRecord>)
  {
    forall a, b :: a in stash && b in stash && a != b && stash[a].alias != "" ==> stash[a].alias != stash[b].alias
  }

  /** Stashing keeps aliases unique when the new alias is empty or no other entry has it. */
  lemma StashKeepsAliasesUnique(stash: map<string, StashRecord>, path: string, alias: string, now: string)
    requires AliasesUnique(stash)
    requires alias == "" || forall k :: k in stash && k != path ==> stash[k].alias != alias
    ensures AliasesUnique(StashInsert(stash, path, alias, now))
  {
    var r := StashInsert(stash, path, alias, now);
    forall a, b | a in r && b in r && a != b && r[a].alias != ""
      ensures r[a].alias != r[b].alias
    {
      if a != path && b != path {
        assert r[a] == stash[a] && r[b] == stash[b];
      }
    }
  }

  /** Re-aliasing checks for no collision: two stashed paths can end up with one alias. */
  lemma RealiasMayDuplicate()
    ensures var stash := map["/a" := StashRecord("t", "x"), "/b" := StashRecord("t", "")];
            AliasesUnique(stash) && !AliasesUnique(Realias(stash, "/b", "x"))
  {
    var stash := map["/a" := StashRecord("t", "x"), "/b" := StashRecord("t", "")];
    assert "/a" != "/b" by {
      assert "/a"[1] != "/b"[1];
    }
    var r := Realias(stash, "/b", "x");
    assert r["/a"].alias == r["/b"].alias;
  }

  method Visit(r: Records, path: string, now: string)
    modifies r
    ensures r.pathRecords == RecordVisit(old(r.pathRecords), path, now)
    ensures r.stashRecords == old(r.stashRecords)
  {
    if path in r.pathRecords {
      var rec := r.pathRecords[path];
      rec := rec.(count := rec.count + 1, timestamp := now);
      r.pathRecords := r.pathRecords[path := rec];
    } else {
      r.pathRecords := r.pathRecords[path := PathRecord(1, now)];
    }
  }

  method StashPath(r: Records, path: string, alias: string, now: string)
    modifies r
    ensures r.stashRecords == StashInsert(old(r.stashRecords), path, alias, now)
    ensures r.pathRecords == old(r.pathRecords)
  {
    r.stashRecords := r.stashRecords[path := StashRecord(now, alias)];
  }

  // ---------------------------------------------------------------------------------
  // Choosing the target

  /** The first key, in the map's iteration order, whose stash record has the alias. */
  function FirstWithAlias(stash: map<string, StashRecord>, order: seq<string>, alias: string): (r: Option<string>)
    ensures r.Some? ==> r.value in stash && stash[r.value].alias == alias && r.value in order
    ensures r.None? <==> forall k :: k in order && k in stash ==> stash[k].alias != alias
  {
    if |order| == 0 then None
    else if order[0] in stash && stash[order[0]].alias == alias then Some(order[0])
    else FirstWithAlias(stash, order[1..], alias)
  }

  /** The range loop over the stash that stops at the first record with the alias. */
  method LookupAlias(stash: map<string, StashRecord>, order: seq<string>, alias: string) returns (found: bool, key: string)
    requires IsEnumeration(order, stash.Keys)
    ensures found <==> FirstWithAlias(stash, order, alias).Some?
    ensures found ==> FirstWithAlias(stash, order, alias) == Some(key)
  {
    found, key := false, "";
    var i := 0;
    while i < |order|
      invariant 0 <= i <= |order|
      invariant FirstWithAlias(stash, order, alias) == FirstWithAlias(stash, order[i..], alias)
    {
      assert order[i..][1..] == order[i + 1..];
      var rec := stash[order[i]];
      if rec.alias == alias {
        key, found := order[i], true;
        break;
      }
      i := i + 1;
    }
  }

  /** The outcome of choosing a target: a path to change into, seen from the directory
      `from` the process is in by then; a lookup that found nothing (the run prints "."); or
      a panic. */
  datatype Selection =
    | Selected(target: string, from: seq<string>)
    | NotFound
    | Crashed(reason: Panic)

  /** The n-th path of the recency order, counting from 1, after the range check of
      main.go. */
  function HistoryEntry(paths: map<string, PathRecord>, order: seq<string>, n: int, cwd: seq<string>): Selection
    requires n >= 1
  {
    var mru := RecencyOrder(PathStamps(paths), order);
    if n - 1 > |mru| - 1 then NotFound
    else Selected(mru[n - 1], cwd)
  }

  /** The n-th stashed path of the recency order, counting from 1; Go's slice bounds
      check is the only check. */
  function StashEntry(stash: map<string, StashRecord>, order: seq<string>, n: int, cwd: seq<string>): Selection
    requires n >= 1
  {
    var srk := RecencyOrder(StashStamps(stash), order);
    if n - 1 >= |srk| then Crashed(StashIndexOutOfRange)
    else Selected(srk[n - 1], cwd)
  }

  /** The modes in their fixed precedence: ancestor swap, alias, history index, stash
      index, the argument repeated, the home directory. */
  function SelectTarget(req: Request, paths: map<string, PathRecord>, stash: map<string, StashRecord>, env: Env): Selection
  {
    if req.dynamicSwap > 0 then
      if |req.args| == 0 then Crashed(MissingArgument)
      else Selected(SwapTarget(req.args[0], req.dynamicSwap, env.cwd), Ancestor(env.cwd, req.dynamicSwap + 1))
    else if req.aliasPath != "" then
      match FirstWithAlias(stash, env.aliasOrder, req.aliasPath)
      case Some(k) => Selected(k, env.cwd)
      case None => NotFound
    else if req.historyPath > 0 then HistoryEntry(paths, env.pathOrder, req.historyPath, env.cwd)
    else if req.stashPath > 0 then StashEntry(stash, env.stashOrder, req.stashPath, env.cwd)
    else if |req.args| > 0 then
      if req.numRepeat < 0 then Crashed(NegativeRepeatCount)
      else Selected(Repeated(req.args[0], req.numRepeat), env.cwd)
    else Selected(env.home, env.cwd)
  }

  /** The history index is checked: it fails exactly when it exceeds the number of path
      records; otherwise it picks the n-th path of the recency order, counting from 1. */
  lemma HistoryIndexChecked(paths: map<string, PathRecord>, order: seq<string>, n: int, cwd: seq<string>)
    requires IsEnumeration(order, paths.Keys) && n >= 1
    ensures HistoryEntry(paths, order, n, cwd) == NotFound <==> n > |paths|
    ensures n <= |paths| ==>
              var k := RecencyOrder(PathStamps(paths), order)[n - 1];
              HistoryEntry(paths, order, n, cwd) == Selected(k, cwd) && k in paths
  {
    var mru := RecencyOrder(PathStamps(paths), order);
    RecencyOrderEnumerates(PathStamps(paths), order);
    if n <= |paths| {
      assert mru[n - 1] in mru;
    }
  }

  /** A history index past the end stops the run before anything is saved. */
  lemma HistoryIndexPastEndAborts(req: Request, env: Env, paths: map<string, PathRecord>, stash: map<string, StashRecord>)
    requires OrdersOf(env, paths, stash)
    requires req.dynamicSwap <= 0 && req.aliasPath == "" && req.historyPath > |paths| && req.historyPath >= 1
    ensures Navigate(req, env, paths, stash) == After(ReturnCwd, false, paths, stash)
  {
    HistoryIndexChecked(paths, env.pathOrder, req.historyPath, env.cwd);
  }

  /** History entry 1 is a path no other path is newer than. */
  lemma HistoryFirstIsNewest(req: Request, paths: map<string, PathRecord>, stash: map<string, StashRecord>, env: Env)
    requires OrdersOf(env, paths, stash)
    requires req.dynamicSwap <= 0 && req.aliasPath == "" && req.historyPath == 1 && |paths| != 0
    ensures var s := SelectTarget(req, paths, stash, env);
            s.Selected? && s.target in paths &&
            forall k :: k in paths ==> !Less(paths[s.target].timestamp, paths[k].timestamp)
  {
    var stamps := PathStamps(paths);
    var mru := RecencyOrder(stamps, env.pathOrder);
    RecencyOrderEnumerates(stamps, env.pathOrder);
    RecencyOrderSorted(stamps, env.pathOrder);
    forall k | k in paths
      ensures !Less(paths[mru[0]].timestamp, paths[k].timestamp)
    {
      var j :| 0 <= j < |mru| && mru[j] == k;
      if j != 0 {
        assert !Less(StampOf(stamps, mru[0]), StampOf(stamps, mru[j]));
      } else {
        LessIrreflexive(paths[k].timestamp);
      }
    }
  }

  /** The stash index is not checked against the stash's size: past the end the run
      panics; otherwise it picks the n-th stashed path of the recency order, counting
      from 1. */
  lemma StashIndexUnchecked(stash: map<string, StashRecord>, order: seq<string>, n: int, cwd: seq<string>)
    requires IsEnumeration(order, stash.Keys) && n >= 1
    ensures |RecencyOrder(StashStamps(stash), order)| == |stash|
    ensures StashEntry(stash, order, n, cwd) == Crashed(StashIndexOutOfRange) <==> n > |stash|
    ensures n <= |stash| ==>
              var k := RecencyOrder(StashStamps(stash), order)[n - 1];
              StashEntry(stash, order, n, cwd) == Selected(k, cwd) && k in stash
  {
    var srk := RecencyOrder(StashStamps(stash), order);
    RecencyOrderEnumerates(StashStamps(stash), order);
    if n <= |stash| {
      assert srk[n - 1] in srk;
    }
  }

  /** An alias lookup goes to a stashed path carrying that alias, and fails exactly when
      no stashed path carries it. */
  lemma AliasLookupSound(req: Request, paths: map<string, PathRecord>, stash: map<string, StashRecord>, env: Env)
    requires OrdersOf(env, paths, stash)
    requires req.dynamicSwap <= 0 && req.aliasPath != ""
    ensures var s := SelectTarget(req, paths, stash, env);
            (s == NotFound <==> forall k :: k in stash ==> stash[k].alias != req.aliasPath) &&
            (s.Selected? ==> s.target in stash && stash[s.target].alias == req.aliasPath)
  {
    var f := FirstWithAlias(stash, env.aliasOrder, req.aliasPath);
    if f.None? {
      forall k | k in stash ensures stash[k].alias != req.aliasPath {
        assert k in env.aliasOrder;
      }
    }
  }

  /** A mode earlier in the precedence makes every later mode irrelevant. */
  lemma ModePrecedence(req: Request, paths: map<string, PathRecord>, stash: map<string, StashRecord>, env: Env,
                       aliasPath: string, historyPath: int, stashPath: int, numRepeat: int)
    ensures req.dynamicSwap > 0 ==>
      SelectTarget(req, paths, stash, env) ==
      SelectTarget(req.(aliasPath := aliasPath, historyPath := historyPath, stashPath := stashPath, numRepeat := numRepeat), paths, stash, env)
    ensures req.dynamicSwap <= 0 && req.aliasPath != "" ==>
      SelectTarget(req, paths, stash, env) ==
      SelectTarget(req.(historyPath := historyPath, stashPath := stashPath, numRepeat := numRepeat), paths, stash, env)
    ensures req.dynamicSwap <= 0 && req.aliasPath == "" && req.historyPath > 0 ==>
      SelectTarget(req, paths, stash, env) ==
      SelectTarget(req.(stashPath := stashPath, numRepeat := numRepeat), paths, stash, env)
    ensures req.dynamicSwap <= 0 && req.aliasPath == "" && req.historyPath <= 0 && req.stashPath > 0 ==>
      SelectTarget(req, paths, stash, env) ==
      SelectTarget(req.(numRepeat := numRepeat), paths, stash, env)
  {
  }

  /** The ancestor swap names the current directory with the segment `k` levels up
      replaced by the argument, once read from the directory it leaves the process in. */
  lemma SwapSelectsSibling(req: Request, paths: map<string, PathRecord>, stash: map<string, StashRecord>, env: Env)
    requires req.dynamicSwap > 0 && |req.args| != 0 && req.dynamicSwap < |env.cwd|
    ensures var s := SelectTarget(req, paths, stash, env);
            s.Selected? &&
            s.target == Join([req.args[0]] + env.cwd[|env.cwd| - req.dynamicSwap..], "/") &&
            s.from == env.cwd[..|env.cwd| - req.dynamicSwap - 1] &&
            s.from + [req.args[0]] + env.cwd[|env.cwd| - req.dynamicSwap..]
              == env.cwd[|env.cwd| - req.dynamicSwap - 1 := req.args[0]]
  {
    SwapReplacesAncestor(req.args[0], req.dynamicSwap, env.cwd);
    SwappedSegmentsAreSuffix(env.cwd, req.dynamicSwap);
    AncestorIsPrefix(env.cwd, req.dynamicSwap + 1);
  }

  method PickHistory(paths: map<string, PathRecord>, order: seq<string>, n: int, cwd: seq<string>) returns (sel: Selection)
    requires IsEnumeration(order, paths.Keys) && n >= 1
    ensures sel == HistoryEntry(paths, order, n, cwd)
  {
    var mru := SortRecords(PathStamps(paths), order);
    if n - 1 > |mru| - 1 {
      return NotFound;
    }
    sel := Selected(mru[n - 1], cwd);
  }

  method PickStash(stash: map<string, StashRecord>, order: seq<string>, n: int, cwd: seq<string>) returns (sel: Selection)
    requires IsEnumeration(order, stash.Keys) && n >= 1
    ensures sel == StashEntry(stash, order, n, cwd)
  {
    var srk := SortRecords(StashStamps(stash), order);
    if n - 1 >= |srk| {
      return Crashed(StashIndexOutOfRange);
    }
    sel := Selected(srk[n - 1], cwd);
  }

  /** Chooses the target as main.go does, sorting the records and scanning the stash. */
  method ResolveTarget(paths: map<string, PathRecord>, stash: map<string, StashRecord>, req: Request, env: Env)
    returns (sel: Selection)
    requires OrdersOf(env, paths, stash)
    ensures sel == SelectTarget(req, paths, stash, env)
  {
    if req.dynamicSwap > 0 {
      if |req.args| == 0 {
        return Crashed(MissingArgument);
      }
      var target, wd := DynamicPathSwap(req.args[0], req.dynamicSwap, env.cwd);
      sel := Selected(target, wd);
    } else if req.aliasPath != "" {
      var found, key := LookupAlias(stash, env.aliasOrder, req.aliasPath);
      if !found {
        return NotFound;
      }
      sel := Selected(key, env.cwd);
    } else if req.historyPath > 0 {
      sel := PickHistory(paths, env.pathOrder, req.historyPath, env.cwd);
    } else if req.stashPath > 0 {
      sel := PickStash(stash, env.stashOrder, req.stashPath, env.cwd);
    } else if |req.args| > 0 {
      if req.numRepeat < 0 {
        return Crashed(NegativeRepeatCount);
      }
      var target := Repeat(req.args[0], req.numRepeat);
      sel := Selected(target, env.cwd);
    } else {
      sel := Selected(env.home, env.cwd);
    }
  }

  // ---------------------------------------------------------------------------------
  // A whole run

  /** How a run ends, whether it writes the cache file, and the store it holds in memory
      at the end; the file holds that store exactly when `written`, and is left as it was
      otherwise. */
  datatype After = After(exit: Exit, written: bool, paths: map<string, PathRecord>, stash: map<string, StashRecord>)

  /** The run once the target has been handed to the file system: `dir` is the new working
      directory, or None when the target is not a valid path. */
  function Arrive(req: Request, env: Env, paths: map<string, PathRecord>, stash: map<string, StashRecord>,
                  dir: Option<seq<string>>): After
  {
    if dir.None? then After(ReturnCwd, false, paths, stash)
    else
      var path := AbsPath(dir.value);
      var visited := RecordVisit(paths, path, env.visitedAt);
      if !req.stash then After(ChangeTo(path), true, visited, stash)
      else if env.aliasExists(visited, stash, req.alias) then After(ReturnCwd, false, visited, stash)
      else After(ChangeTo(path), true, visited, StashInsert(stash, path, req.alias, env.stashedAt))
  }

  /** One invocation, from the loaded store to its end. */
  function Main(req: Request, env: Env, paths: map<string, PathRecord>, stash: map<string, StashRecord>): After
  {
    if req.help || req.version then After(ReturnCwd, false, paths, stash)
    else if req.clear then After(ReturnCwd, true, map[], stash)
    else if req.clearLimit then
      var limit := EffectiveLimit(env.maxMRUDisplay, |paths|);
      After(ReturnCwd, true, Evict(paths, RecencyOrder(PathStamps(paths), env.pathOrder), limit), stash)
    else if req.clearStash then After(ReturnCwd, true, paths, map[])
    else if req.list || req.listStash then After(ReturnCwd, false, paths, stash)
    else if |req.args| > 1 then After(Fatal, false, paths, stash)
    else if req.modifyAlias > 0 then ModifyAliasBranch(req, env, paths, stash)
    else Navigate(req, env, paths, stash)
  }

  /** Re-aliasing the n-th stash entry of the recency order to the argument; the index is
      only checked by Go's slice bounds check. */
  function ModifyAliasBranch(req: Request, env: Env, paths: map<string, PathRecord>, stash: map<string, StashRecord>): After
    requires req.modifyAlias > 0
  {
    var srk := RecencyOrder(StashStamps(stash), env.stashOrder);
    if req.modifyAlias - 1 >= |srk| then After(Panicked(StashIndexOutOfRange), false, paths, stash)
    else if |req.args| == 0 then After(Panicked(MissingArgument), false, paths, stash)
    else After(ReturnCwd, true, paths, Realias(stash, srk[req.modifyAlias - 1], req.args[0]))
  }

  /** Choosing a target and going there. */
  function Navigate(req: Request, env: Env, paths: map<string, PathRecord>, stash: map<string, StashRecord>): After
  {
    match SelectTarget(req, paths, stash, env)
    case NotFound => After(ReturnCwd, false, paths, stash)
    case Crashed(p) => After(Panicked(p), false, paths, stash)
    case Selected(target, from) => Arrive(req, env, paths, stash, env.chdir(from, target))
  }

  /** The clear commands empty one map and leave the other alone; clearing to the limit
      keeps the newest `limit` path records, or all of them when there are no more. */
  lemma MaintenanceTouchesOneMap(req: Request, env: Env, paths: map<string, PathRecord>, stash: map<string, StashRecord>)
    requires OrdersOf(env, paths, stash)
    requires !req.help && !req.version
    ensures var a := Main(req, env, paths, stash);
            (req.clear ==> a.written && a.paths == map[] && a.stash == stash) &&
            (!req.clear && req.clearStash && !req.clearLimit ==> a.written && a.stash == map[] && a.paths == paths) &&
            (!req.clear && req.clearLimit ==>
               var limit := EffectiveLimit(env.maxMRUDisplay, |paths|);
               a.written && a.stash == stash && a.paths.Keys <= paths.Keys &&
               |a.paths| == (if |paths| > limit then limit else |paths|) &&
               (forall k :: k in a.paths ==> a.paths[k] == paths[k]) &&
               (forall x, y :: x in a.paths && y in paths && y !in a.paths ==>
                  !Less(paths[x].timestamp, paths[y].timestamp)))
  {
    var limit := EffectiveLimit(env.maxMRUDisplay, |paths|);
    EvictKeepsNewest(paths, env.pathOrder, limit);
  }

  /** The cache discipline of a run from `paths` and `stash` that ended in `a`: a run that
      changes directory has counted the visit, stamped with the visit time, and saved the
      store; a run that panics or stops on a fatal error leaves the cache file as it was;
      only a directory change or a maintenance command saves. */
  predicate SavesOnlyCompletedRuns(req: Request, env: Env, paths: map<string, PathRecord>, stash: map<string, StashRecord>, a: After)
  {
    (a.exit.ChangeTo? ==> a.written && a.exit.path in a.paths &&
                          a.paths[a.exit.path].timestamp == env.visitedAt &&
                          a.paths == RecordVisit(paths, a.exit.path, env.visitedAt) &&
                          |a.exit.path| >= 1 && a.exit.path[0] == '/') &&
    (a.exit.Panicked? || a.exit.Fatal? ==> !a.written && a.paths == paths && a.stash == stash) &&
    (a.written ==> a.exit.ChangeTo? || req.clear || req.clearLimit || req.clearStash || req.modifyAlias > 0)
  }

  lemma ArriveSavesOnlyCompleted(req: Request, env: Env, paths: map<string, PathRecord>, stash: map<string, StashRecord>,
                                 dir: Option<seq<string>>)
    ensures SavesOnlyCompletedRuns(req, env, paths, stash, Arrive(req, env, paths, stash, dir))
  {
  }

  lemma NavigateSavesOnlyCompleted(req: Request, env: Env, paths: map<string, PathRecord>, stash: map<string, StashRecord>)
    ensures SavesOnlyCompletedRuns(req, env, paths, stash, Navigate(req, env, paths, stash))
  {
    match SelectTarget(req, paths, stash, env)
    case Selected(target, from) => ArriveSavesOnlyCompleted(req, env, paths, stash, env.chdir(from, target));
    case NotFound =>
    case Crashed(_) =>
  }

  /** A run that changes directory has counted the visit, stamped with the visit time,
      and saved the store; a run that panics, stops at a failed lookup, an invalid path or
      a taken alias leaves the cache file as it was. */
  lemma WritesOnlyCompletedRuns(req: Request, env: Env, paths: map<string, PathRecord>, stash: map<string, StashRecord>)
    ensures SavesOnlyCompletedRuns(req, env, paths, stash, Main(req, env, paths, stash))
  {
    if req.help || req.version || req.clear || req.clearLimit || req.clearStash || req.list || req.listStash || |req.args| > 1 {
    } else if req.modifyAlias > 0 {
      assert Main(req, env, paths, stash) == ModifyAliasBranch(req, env, paths, stash);
    } else {
      assert Main(req, env, paths, stash) == Navigate(req, env, paths, stash);
      NavigateSavesOnlyCompleted(req, env, paths, stash);
    }
  }

  /** What the shell function reads tells the run's outcome apart: nothing after a panic
      or a fatal error, which saved nothing; "." when the run stays put; otherwise an
      absolute path, the one whose visit the saved store has just recorded. */
  lemma RunOutput(req: Request, env: Env, paths: map<string, PathRecord>, stash: map<string, StashRecord>)
    ensures var a := Main(req, env, paths, stash);
            var out := Stdout(a.exit);
            (out == "" <==> a.exit.Panicked? || a.exit.Fatal?) &&
            (out == "" ==> !a.written && a.paths == paths && a.stash == stash) &&
            (out == "." <==> a.exit.ReturnCwd?) &&
            (out != "" && out != "." ==>
               a.exit == ChangeTo(out) && a.written && out in a.paths &&
               a.paths[out].timestamp == env.visitedAt && a.paths == RecordVisit(paths, out, env.visitedAt))
  {
    WritesOnlyCompletedRuns(req, env, paths, stash);
    var a := Main(req, env, paths, stash);
    if a.exit.ChangeTo? {
      assert Stdout(a.exit)[0] == '/';
      assert "."[0] == '.';
    }
  }

  /** Stashing under an alias the store reports as taken ends the run before anything is
      saved. */
  lemma TakenAliasAborts(req: Request, env: Env, paths: map<string, PathRecord>, stash: map<string, StashRecord>, dir: seq<string>)
    requires req.stash
    requires env.aliasExists(RecordVisit(paths, AbsPath(dir), env.visitedAt), stash, req.alias)
    ensures Arrive(req, env, paths, stash, Some(dir)).exit == ReturnCwd
    ensures !Arrive(req, env, paths, stash, Some(dir)).written
    ensures Arrive(req, env, paths, stash, Some(dir)).stash == stash
  {
  }

  lemma ArriveKeepsAliasesUnique(req: Request, env: Env, paths: map<string, PathRecord>, stash: map<string, StashRecord>,
                                 dir: Option<seq<string>>)
    requires AliasesUnique(stash)
    requires forall p, k, a :: k in stash && stash[k].alias == a && a != "" ==> env.aliasExists(p, stash, a)
    ensures AliasesUnique(Arrive(req, env, paths, stash, dir).stash)
  {
    if dir.Some? && req.stash {
      var path := AbsPath(dir.value);
      var visited := RecordVisit(paths, path, env.visitedAt);
      if !env.aliasExists(visited, stash, req.alias) {
        if req.alias != "" {
          forall k | k in stash && k != path ensures stash[k].alias != req.alias {
            assert stash[k].alias == req.alias ==> env.aliasExists(visited, stash, req.alias);
          }
        }
        StashKeepsAliasesUnique(stash, path, req.alias, env.stashedAt);
      }
    }
  }

  /** When the alias check reports every non-empty alias a stash record carries, every run
      that does not re-alias keeps the stash's aliases unique. */
  lemma RunKeepsAliasesUnique(req: Request, env: Env, paths: map<string, PathRecord>, stash: map<string, StashRecord>)
    requires AliasesUnique(stash) && req.modifyAlias <= 0
    requires forall p, k, a :: k in stash && stash[k].alias == a && a != "" ==> env.aliasExists(p, stash, a)
    ensures AliasesUnique(Main(req, env, paths, stash).stash)
  {
    match SelectTarget(req, paths, stash, env)
    case Selected(target, from) => ArriveKeepsAliasesUnique(req, env, paths, stash, env.chdir(from, target));
    case NotFound =>
    case Crashed(_) =>
  }

  /** The program: each step of main.go in its order, on the store `r`. */
  method Run(r: Records, req: Request, env: Env) returns (exit: Exit, written: bool)
    requires OrdersOf(env, r.pathRecords, r.stashRecords)
    modifies r
    ensures After(exit, written, r.pathRecords, r.stashRecords) == Main(req, env, old(r.pathRecords), old(r.stashRecords))
  {
    if req.help || req.version {
      return ReturnCwd, false;
    }
    var limit := env.maxMRUDisplay;
    if limit < 0 {
      limit := |r.pathRecords|;
    }
    if req.clear {
      ClearHistory(r);
      return ReturnCwd, true;
    }
    if req.clearLimit {
      var panicked := AutoClear(r, limit, env.pathOrder);
      return ReturnCwd, true;
    }
    if req.clearStash {
      ClearStash(r);
      return ReturnCwd, true;
    }
    if req.list || req.listStash {
      return ReturnCwd, false;
    }
    if |req.args| > 1 {
      return Fatal, false;
    }
    if req.modifyAlias > 0 {
      exit, written := RunModifyAlias(r, req, env);
    } else {
      exit, written := RunNavigate(r, req, env);
    }
  }

  method RunModifyAlias(r: Records, req: Request, env: Env) returns (exit: Exit, written: bool)
    requires IsEnumeration(env.stashOrder, r.stashRecords.Keys) && req.modifyAlias > 0
    modifies r
    ensures After(exit, written, r.pathRecords, r.stashRecords) == ModifyAliasBranch(req, env, old(r.pathRecords), old(r.stashRecords))
  {
    var srk := SortRecords(StashStamps(r.stashRecords), env.stashOrder);
    if req.modifyAlias - 1 >= |srk| {
      return Panicked(StashIndexOutOfRange), false;
    }
    if |req.args| == 0 {
      return Panicked(MissingArgument), false;
    }
    ModifyAlias(r, srk[req.modifyAlias - 1], req.args[0]);
    return ReturnCwd, true;
  }

  method RunNavigate(r: Records, req: Request, env: Env) returns (exit: Exit, written: bool)
    requires OrdersOf(env, r.pathRecords, r.stashRecords)
    modifies r
    ensures After(exit, written, r.pathRecords, r.stashRecords) == Navigate(req, env, old(r.pathRecords), old(r.stashRecords))
  {
    var sel := ResolveTarget(r.pathRecords, r.stashRecords, req, env);
    match sel {
      case NotFound =>
        return ReturnCwd, false;
      case Crashed(p) =>
        return Panicked(p), false;
      case Selected(target, from) =>
        var dir := env.chdir(from, target);
        if dir.None? {
          return ReturnCwd, false;
        }
        var path := AbsPath(dir.value);
        Visit(r, path, env.visitedAt);
        if req.stash {
          if env.aliasExists(r.pathRecords, r.stashRecords, req.alias) {
            return ReturnCwd, false;
          }
          StashPath(r, path, req.alias, env.stashedAt);
        }
        return ChangeTo(path), true;
    }
  }
}
