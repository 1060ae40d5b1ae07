/** The helpers of package utilities: the repeated relative path, prepending to a slice,
    the ancestor swap and the eviction of old history entries. */
module Utilities {
  import opened Strings
  import opened Records

  // ---------------------------------------------------------------------------------
  // Repeat

  /** `n` copies of `str`. */
  function Copies(str: string, n: nat): (c: seq<string>)
    ensures |c| == n
    ensures forall i :: 0 <= i < n ==> c[i] == str
  {
    seq(n, _ => str)
  }

  /** `times` copies of `str` joined by "/", e.g. `..` four times is `../../../..`. */
  function Repeated(str: string, times: nat): (r: string)
    ensures times == 0 ==> r == ""
    ensures times == 1 ==> r == str
  {
    Join(Copies(str, times), "/")
  }

  /** One more copy adds a separator and the string at the end. */
  lemma {:induction false} JoinAppend(parts: seq<string>, sep: string, p: string)
    requires |parts| != 0
    ensures Join(parts + [p], sep) == Join(parts, sep) + sep + p
    decreases |parts|
  {
    if |parts| == 1 {
      assert (parts + [p])[1..] == [p];
    } else {
      assert (parts + [p])[1..] == parts[1..] + [p];
      JoinAppend(parts[1..], sep, p);
    }
  }

  lemma RepeatedStep(str: string, n: nat)
    requires n >= 1
    ensures Repeated(str, n + 1) == Repeated(str, n) + "/" + str
  {
    assert Copies(str, n + 1) == Copies(str, n) + [str];
    JoinAppend(Copies(str, n), "/", str);
  }

  /** For n >= 1 copies, the result holds the n copies and the n - 1 separators. */
  lemma {:induction false} RepeatedLength(str: string, n: nat)
    requires n >= 1
    ensures |Repeated(str, n)| == n * |str| + n - 1
  {
    if n > 1 {
      RepeatedLength(str, n - 1);
      RepeatedStep(str, n - 1);
    }
  }

  /** The two cases of the repository's test of Repeat. */
  lemma RepeatedExamples()
    ensures Repeated("..", 4) == "../../../.."
    ensures Repeated(".", 2) == "./."
  {
    RepeatedStep("..", 1);
    RepeatedStep("..", 2);
    RepeatedStep("..", 3);
    RepeatedStep(".", 1);
  }

  /** Fills a slice of `times` entries with `str` and joins it with "/"; Go's make panics
      on a negative length, so `times` is at least zero. */
  method Repeat(str: string, times: int) returns (r: string)
    requires times >= 0
    ensures r == Repeated(str, times)
  {
    var s := new string[times];
    for i := 0 to times
      invariant forall k :: 0 <= k < i ==> s[k] == str
    {
      s[i] := str;
    }
    assert s[..] == Copies(str, times);
    r := Join(s[..], "/");
  }

  // ---------------------------------------------------------------------------------
  // prependStrSlice

  /** Appends an empty slot, shifts every element one place to the right (Go's copy has
      memmove semantics for overlapping slices, so it runs from the back) and stores `y`
      in front. */
  method PrependStrSlice(x: seq<string>, y: string) returns (r: seq<string>)
    ensures |r| == |x| + 1
    ensures r[0] == y && r[1..] == x
  {
    var a := new string[|x| + 1](i => if 0 <= i < |x| then x[i] else "");
    var k := |x|;
    while k > 0
      invariant 0 <= k <= |x|
      invariant forall j :: 0 <= j < k ==> a[j] == x[j]
      invariant forall j :: k < j <= |x| ==> a[j] == x[j - 1]
    {
      a[k] := a[k - 1];
      k := k - 1;
    }
    a[0] := y;
    assert a[1..] == x;
    r := a[..];
  }

  // ---------------------------------------------------------------------------------
  // DynamicPathSwap

  /* The current directory is an absolute path given by its segments: "/x/y/z" is
     ["x", "y", "z"] and the root "/" is []. */

  /** The last element of strings.Split(wd, "/"): the directory's own name, "" at the root. */
  function Basename(cwd: seq<string>): (b: string)
    ensures |cwd| != 0 ==> b == cwd[|cwd| - 1]
    ensures |cwd| == 0 ==> b == ""
  {
    if |cwd| == 0 then "" else cwd[|cwd| - 1]
  }

  /** Where os.Chdir("..") leads: one segment less, and the root stays the root. */
  function Parent(cwd: seq<string>): (p: seq<string>)
    ensures |cwd| != 0 ==> p == cwd[..|cwd| - 1]
    ensures |cwd| == 0 ==> p == []
  {
    if |cwd| == 0 then [] else cwd[..|cwd| - 1]
  }

  /** The directory `i` levels up. */
  function Ancestor(cwd: seq<string>, i: nat): seq<string>
  {
    if i == 0 then cwd else Parent(Ancestor(cwd, i - 1))
  }

  /** The names collected by `k` rounds of the loop, outermost first. */
  function SwappedSegments(cwd: seq<string>, k: nat): seq<string>
  {
    if k == 0 then [] else [Basename(Ancestor(cwd, k - 1))] + SwappedSegments(cwd, k - 1)
  }

  /** A negative count runs no round of the loop. */
  function Rounds(upCount: int): nat
  {
    if upCount < 0 then 0 else upCount
  }

  /** The relative path returned by DynamicPathSwap. */
  function SwapTarget(swapArg: string, upCount: int, cwd: seq<string>): string
  {
    Join([swapArg] + SwappedSegments(cwd, Rounds(upCount)), "/")
  }

  lemma {:induction false} AncestorIsPrefix(cwd: seq<string>, i: nat)
    ensures i <= |cwd| ==> Ancestor(cwd, i) == cwd[..|cwd| - i]
    ensures i >= |cwd| ==> Ancestor(cwd, i) == []
  {
    if i != 0 {
      AncestorIsPrefix(cwd, i - 1);
    }
  }

  /** Within the path, the collected names are the last `k` segments in their order;
      going past the root adds empty names in front. */
  lemma SwappedSegmentsAreSuffix(cwd: seq<string>, k: nat)
    ensures k <= |cwd| ==> SwappedSegments(cwd, k) == cwd[|cwd| - k..]
    ensures k >= |cwd| ==> SwappedSegments(cwd, k) == seq(k - |cwd|, _ => "") + cwd
  {
    if k <= |cwd| {
      SegmentsWithinPath(cwd, k);
    } else {
      SegmentsPastRoot(cwd, k);
    }
  }

  lemma {:induction false} SegmentsWithinPath(cwd: seq<string>, k: nat)
    requires k <= |cwd|
    ensures SwappedSegments(cwd, k) == cwd[|cwd| - k..]
  {
    if k != 0 {
      SegmentsWithinPath(cwd, k - 1);
      AncestorIsPrefix(cwd, k - 1);
      assert cwd[|cwd| - k..] == [cwd[|cwd| - k]] + cwd[|cwd| - k + 1..];
    }
  }

  lemma {:induction false} SegmentsPastRoot(cwd: seq<string>, k: nat)
    requires k >= |cwd|
    ensures SwappedSegments(cwd, k) == seq(k - |cwd|, _ => "") + cwd
  {
    if k == |cwd| {
      SegmentsWithinPath(cwd, k);
      assert seq(0, _ => "") == [];
      assert cwd[0..] == cwd;
    } else {
      SegmentsPastRoot(cwd, k - 1);
      AncestorIsPrefix(cwd, k - 1);
      assert seq(k - |cwd|, _ => "") == [""] + seq(k - 1 - |cwd|, _ => "");
    }
  }

  /** Seen from the directory the function leaves the process in, the target is the
      current directory with the segment `k` levels up replaced by `swapArg`. */
  lemma SwapReplacesAncestor(swapArg: string, k: nat, cwd: seq<string>)
    requires k < |cwd|
    ensures Ancestor(cwd, k + 1) + [swapArg] + SwappedSegments(cwd, k)
         == cwd[|cwd| - k - 1 := swapArg]
  {
    AncestorIsPrefix(cwd, k + 1);
    SwappedSegmentsAreSuffix(cwd, k);
  }

  /** From /x/y/z, swapping the name two levels up (x) with "w" gives w/y/z, read from "/". */
  lemma SwapExample()
    ensures SwapTarget("w", 2, ["x", "y", "z"]) == "w/y/z"
  {
    SwappedSegmentsAreSuffix(["x", "y", "z"], 2);
    assert SwappedSegments(["x", "y", "z"], 2) == ["y", "z"];
    assert ["w"] + ["y", "z"] == ["w", "y", "z"];
    assert Join(["z"], "/") == "z";
    assert Join(["y", "z"], "/") == "y/z";
  }

  /** Walks `upCount` levels up, collecting each directory's name in front, then one level
      more, and joins `swapArg` and the names by "/". Returns the relative target and the
      directory the process is left in. */
  method DynamicPathSwap(swapArg: string, upCount: int, cwd: seq<string>) returns (target: string, wd: seq<string>)
    ensures target == Join([swapArg] + SwappedSegments(cwd, Rounds(upCount)), "/")
    ensures wd == Ancestor(cwd, Rounds(upCount) + 1)
  {
    var paths: seq<string> := [];
    wd := cwd;
    var i := 0;
    while i < upCount
      invariant 0 <= i <= Rounds(upCount)
      invariant paths == SwappedSegments(cwd, i)
      invariant wd == Ancestor(cwd, i)
    {
      paths := PrependStrSlice(paths, Basename(wd));
      wd := Parent(wd);
      i := i + 1;
    }
    wd := Parent(wd);
    paths := PrependStrSlice(paths, swapArg);
    target := Join(paths, "/");
  }

  // ---------------------------------------------------------------------------------
  // AutoClear

  /** The keys listed in `s`. */
  function Listed(s: seq<string>): (r: set<string>)
    ensures forall k :: k in r <==> k in s
  {
    set k | k in s
  }

  /** Deletes the keys of the recency list `rk` past position `limit`, if it is longer. */
  function Evict(m: map<string, PathRecord>, rk: seq<string>, limit: nat): (r: map<string, PathRecord>)
    ensures r.Keys <= m.Keys
    ensures forall k :: k in r ==> r[k] == m[k]
  {
    if |rk| > limit then m - Listed(rk[limit..]) else m
  }

  /** With `rk` an enumeration of the keys, the survivors are exactly the first `limit`
      keys of `rk`, or all of them when there are no more than `limit`. */
  lemma EvictKeepsPrefix(m: map<string, PathRecord>, rk: seq<string>, limit: nat)
    requires IsEnumeration(rk, m.Keys)
    ensures |rk| > limit ==> IsEnumeration(rk[..limit], Evict(m, rk, limit).Keys)
    ensures |rk| > limit ==> |Evict(m, rk, limit)| == limit
    ensures |rk| <= limit ==> Evict(m, rk, limit) == m
  {
    if |rk| > limit {
      var r := Evict(m, rk, limit);
      forall k ensures k in r <==> k in rk[..limit] {
        if k in rk[..limit] {
          var i :| 0 <= i < limit && rk[..limit][i] == k;
          assert rk[i] == k;
          forall j | 0 <= j < |rk[limit..]| ensures rk[limit..][j] != k {
            assert rk[limit..][j] == rk[limit + j];
          }
        } else if k in m {
          var i :| 0 <= i < |rk| && rk[i] == k;
          forall t | 0 <= t < limit ensures rk[..limit][t] == rk[t] { }
          assert i >= limit;
          assert rk[limit..][i - limit] == k;
        }
      }
      assert IsEnumeration(rk[..limit], r.Keys) by {
        forall i, j | 0 <= i < j < limit ensures rk[..limit][i] != rk[..limit][j] {
          assert rk[i] != rk[j];
        }
      }
      DistinctLength(rk[..limit], r.Keys);
    }
  }

  /** In a list sorted newest first, no key of a prefix is older than a key after it. */
  lemma SortedPrefixNewer(stamps: map<string, string>, rk: seq<string>, limit: nat, a: string, b: string)
    requires SortedByRecency(stamps, rk) && limit <= |rk|
    requires a in rk[..limit] && b in rk && b !in rk[..limit]
    ensures !Less(StampOf(stamps, a), StampOf(stamps, b))
  {
    var i :| 0 <= i < limit && rk[..limit][i] == a;
    var j :| 0 <= j < |rk| && rk[j] == b;
    forall t | 0 <= t < limit ensures rk[..limit][t] == rk[t] { }
    assert j >= limit;
    assert rk[i] == a;
  }

  /** Over the limit exactly `limit` entries survive, and no survivor is older than an
      evicted entry; at or under it nothing changes. */
  lemma EvictKeepsNewest(m: map<string, PathRecord>, e: seq<string>, limit: nat)
    requires IsEnumeration(e, m.Keys)
    ensures |m| > limit ==> |Evict(m, RecencyOrder(PathStamps(m), e), limit)| == limit
    ensures |m| <= limit ==> Evict(m, RecencyOrder(PathStamps(m), e), limit) == m
    ensures var r := Evict(m, RecencyOrder(PathStamps(m), e), limit);
            forall a, b :: a in r && b in m && b !in r ==> !Less(m[a].timestamp, m[b].timestamp)
  {
    var stamps := PathStamps(m);
    var rk := RecencyOrder(stamps, e);
    RecencyOrderEnumerates(stamps, e);
    RecencyOrderSorted(stamps, e);
    EvictKeepsPrefix(m, rk, limit);
    var r := Evict(m, rk, limit);
    forall a, b | a in r && b in m && b !in r
      ensures !Less(m[a].timestamp, m[b].timestamp)
    {
      if |rk| > limit {
        SortedPrefixNewer(stamps, rk, limit, a, b);
      }
    }
  }

  /** Clearing twice to the same limit is clearing once, whatever order the second pass
      enumerates the surviving map in. */
  lemma EvictIdempotent(m: map<string, PathRecord>, e: seq<string>, e2: seq<string>, limit: nat)
    requires IsEnumeration(e, m.Keys)
    requires IsEnumeration(e2, Evict(m, RecencyOrder(PathStamps(m), e), limit).Keys)
    ensures var r := Evict(m, RecencyOrder(PathStamps(m), e), limit);
            Evict(r, RecencyOrder(PathStamps(r), e2), limit) == r
  {
    var r := Evict(m, RecencyOrder(PathStamps(m), e), limit);
    EvictKeepsNewest(m, e, limit);
    RecencyOrderEnumerates(PathStamps(r), e2);
    EvictKeepsPrefix(r, RecencyOrder(PathStamps(r), e2), limit);
  }

  /** Deletes from the path records every key of the recency order past position `limit`;
      the stash is left alone. A negative `limit` passes the length check and makes the
      loop's first index, `rk[limit]`, panic before anything is deleted. */
  method AutoClear(r: Records, limit: int, order: seq<string>) returns (panicked: bool)
    requires IsEnumeration(order, r.pathRecords.Keys)
    modifies r
    ensures panicked <==> limit < 0
    ensures limit >= 0 ==>
              r.pathRecords == Evict(old(r.pathRecords), RecencyOrder(PathStamps(old(r.pathRecords)), order), limit)
    ensures limit < 0 ==> r.pathRecords == old(r.pathRecords)
    ensures r.stashRecords == old(r.stashRecords)
  {
    var rk := SortRecords(PathStamps(r.pathRecords), order);
    if |rk| > limit {
      if limit < 0 {
        return true;
      }
      DeletePast(r, rk, limit);
    }
    return false;
  }

  /** The deletion loop of AutoClear: removes `rk[limit]`, `rk[limit + 1]`, ... from the
      path records. */
  method DeletePast(r: Records, rk: seq<string>, limit: nat)
    requires limit <= |rk|
    modifies r
    ensures r.pathRecords == old(r.pathRecords) - Listed(rk[limit..])
    ensures r.stashRecords == old(r.stashRecords)
  {
    var i := limit;
    while i < |rk|
      invariant limit <= i <= |rk|
      invariant r.pathRecords == old(r.pathRecords) - Listed(rk[limit..i])
      invariant r.stashRecords == old(r.stashRecords)
    {
      DeleteOneMore(old(r.pathRecords), rk, limit, i);
      r.pathRecords := r.pathRecords - {rk[i]};
      i := i + 1;
    }
    assert rk[limit..i] == rk[limit..];
  }

  lemma DeleteOneMore(m: map<string, PathRecord>, rk: seq<string>, limit: nat, i: nat)
    requires limit <= i < |rk|
    ensures m - Listed(rk[limit..i]) - {rk[i]} == m - Listed(rk[limit..i + 1])
  {
    assert rk[limit..i + 1] == rk[limit..i] + [rk[i]];
  }
}
