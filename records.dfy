/** The record store of ucd: visited-path records, stash records, the store holding both
    maps, and the recency order (newest timestamp first, stable on ties) over either map. */
module Records {
  import opened Strings

  /** One visited directory: how often it was entered and when it was last entered. */
  datatype PathRecord = PathRecord(count: int, timestamp: string)
  {
    function GetTimestamp(): (t: string)
      ensures t == timestamp
    {
      timestamp
    }

    predicate HasCount()
      ensures HasCount()
    {
      true
    }
  }

  /** One stashed directory: when it was stashed and its alias ("" for none). */
  datatype StashRecord = StashRecord(timestamp: string, alias: string)
  {
    function GetTimestamp(): (t: string)
      ensures t == timestamp
    {
      timestamp
    }

    predicate HasCount()
      ensures !HasCount()
    {
      false
    }
  }

  /** The store: both maps are keyed by path and are updated in place by the commands. */
  class Records {
    var pathRecords: map<string, PathRecord>
    var stashRecords: map<string, StashRecord>

    /** The store a run starts from when the cache cannot be decoded. */
    constructor ()
      ensures pathRecords == map[] && stashRecords == map[]
    {
      pathRecords := map[];
      stashRecords := map[];
    }
  }

  /* The timestamps of a map of either record kind, keyed like the map: this is the one
     capability the recency order needs of a record. */

  function PathStamps(m: map<string, PathRecord>): (s: map<string, string>)
    ensures s.Keys == m.Keys
    ensures forall k :: k in m ==> s[k] == m[k].GetTimestamp()
  {
    map k | k in m :: m[k].GetTimestamp()
  }

  function StashStamps(m: map<string, StashRecord>): (s: map<string, string>)
    ensures s.Keys == m.Keys
    ensures forall k :: k in m ==> s[k] == m[k].GetTimestamp()
  {
    map k | k in m :: m[k].GetTimestamp()
  }

  /** The timestamp of key `k`; only ever asked of keys of `stamps`. */
  function StampOf(stamps: map<string, string>, k: string): string
  {
    if k in stamps then stamps[k] else ""
  }

  predicate Distinct(s: seq<string>)
  {
    forall i, j :: 0 <= i < j < |s| ==> s[i] != s[j]
  }

  /** `e` lists every key of `keys` exactly once: one possible iteration order of a Go map
      whose key set is `keys`. */
  ghost predicate IsEnumeration(e: seq<string>, keys: set<string>)
  {
    Distinct(e) && forall k :: k in keys <==> k in e
  }

  /** Newest first: no key is older than a key after it. */
  predicate SortedByRecency(stamps: map<string, string>, s: seq<string>)
  {
    forall i, j :: 0 <= i < j < |s| ==> !Less(StampOf(stamps, s[i]), StampOf(stamps, s[j]))
  }

  /** The keys of `s` whose timestamp is `t`, in the order of `s`. */
  function WithStamp(stamps: map<string, string>, s: seq<string>, t: string): seq<string>
  {
    if |s| == 0 then []
    else (if StampOf(stamps, s[0]) == t then [s[0]] else []) + WithStamp(stamps, s[1..], t)
  }

  /** `s` keeps the relative order that `e` gives to keys with equal timestamps. */
  ghost predicate StableFor(stamps: map<string, string>, s: seq<string>, e: seq<string>)
  {
    forall t :: WithStamp(stamps, s, t) == WithStamp(stamps, e, t)
  }

  /** Places `x` after the last key of `s` that is at least as recent as `x`, scanning from
      the back as an insertion sort does. */
  function InsertByRecency(stamps: map<string, string>, x: string, s: seq<string>): seq<string>
  {
    if |s| == 0 then [x]
    else if Less(StampOf(stamps, s[|s| - 1]), StampOf(stamps, x)) then
      InsertByRecency(stamps, x, s[..|s| - 1]) + [s[|s| - 1]]
    else s + [x]
  }

  /** The recency order of the keys enumerated by `e`: what sort.SliceStable produces with
      "timestamp greater" as its less function. */
  function RecencyOrder(stamps: map<string, string>, e: seq<string>): seq<string>
  {
    if |e| == 0 then []
    else InsertByRecency(stamps, e[|e| - 1], RecencyOrder(stamps, e[..|e| - 1]))
  }

  // ---------------------------------------------------------------------------------
  // WithStamp

  lemma {:induction false} WithStampAppend(stamps: map<string, string>, a: seq<string>, b: seq<string>, t: string)
    ensures WithStamp(stamps, a + b, t) == WithStamp(stamps, a, t) + WithStamp(stamps, b, t)
    decreases |a|
  {
    if |a| != 0 {
      assert (a + b)[1..] == a[1..] + b;
      WithStampAppend(stamps, a[1..], b, t);
    } else {
      assert a + b == b;
    }
  }

  lemma {:induction false} WithStampMembers(stamps: map<string, string>, s: seq<string>, t: string)
    ensures forall x :: x in WithStamp(stamps, s, t) <==> x in s && StampOf(stamps, x) == t
    decreases |s|
  {
    if |s| != 0 {
      WithStampMembers(stamps, s[1..], t);
      assert s == [s[0]] + s[1..];
    }
  }

  // ---------------------------------------------------------------------------------
  // Insertion: permutation, sortedness, stability

  lemma {:induction false} InsertByRecencyPermutes(stamps: map<string, string>, x: string, s: seq<string>)
    ensures multiset(InsertByRecency(stamps, x, s)) == multiset(s) + multiset{x}
    decreases |s|
  {
    if |s| != 0 && Less(StampOf(stamps, s[|s| - 1]), StampOf(stamps, x)) {
      InsertByRecencyPermutes(stamps, x, s[..|s| - 1]);
      assert s == s[..|s| - 1] + [s[|s| - 1]];
    }
  }

  lemma SortedAppend(stamps: map<string, string>, s: seq<string>, x: string)
    requires SortedByRecency(stamps, s)
    requires forall i :: 0 <= i < |s| ==> !Less(StampOf(stamps, s[i]), StampOf(stamps, x))
    ensures SortedByRecency(stamps, s + [x])
  {
    forall i, j | 0 <= i < j < |s + [x]|
      ensures !Less(StampOf(stamps, (s + [x])[i]), StampOf(stamps, (s + [x])[j]))
    {
      assert (s + [x])[i] == s[i];
    }
  }

  /** Newest first everywhere follows from newest first between neighbours. */
  lemma {:induction false} SortedByAdjacent(stamps: map<string, string>, s: seq<string>)
    requires forall i :: 0 < i < |s| ==> !Less(StampOf(stamps, s[i - 1]), StampOf(stamps, s[i]))
    ensures SortedByRecency(stamps, s)
    decreases |s|
  {
    if |s| > 1 {
      var front, last := s[..|s| - 1], s[|s| - 1];
      SortedByAdjacent(stamps, front);
      forall i | 0 <= i < |front| ensures !Less(StampOf(stamps, front[i]), StampOf(stamps, last)) {
        if i < |front| - 1 {
          NotLessTransitive(StampOf(stamps, front[i]), StampOf(stamps, s[|s| - 2]), StampOf(stamps, last));
        }
      }
      SortedAppend(stamps, front, last);
      assert s == front + [last];
    }
  }

  lemma {:induction false} InsertByRecencySorted(stamps: map<string, string>, x: string, s: seq<string>)
    requires SortedByRecency(stamps, s)
    ensures SortedByRecency(stamps, InsertByRecency(stamps, x, s))
    decreases |s|
  {
    if |s| != 0 {
      var front, last := s[..|s| - 1], s[|s| - 1];
      if Less(StampOf(stamps, last), StampOf(stamps, x)) {
        var ins := InsertByRecency(stamps, x, front);
        InsertByRecencySorted(stamps, x, front);
        InsertByRecencyPermutes(stamps, x, front);
        forall i | 0 <= i < |ins|
          ensures !Less(StampOf(stamps, ins[i]), StampOf(stamps, last))
        {
          assert ins[i] in multiset(ins);
          if ins[i] == x {
            LessAsymmetric(StampOf(stamps, last), StampOf(stamps, x));
          } else {
            assert ins[i] in multiset(front);
            var k :| 0 <= k < |front| && front[k] == ins[i];
            assert s[k] == ins[i] && s[|s| - 1] == last;
          }
        }
        SortedAppend(stamps, ins, last);
      } else {
        forall i | 0 <= i < |s|
          ensures !Less(StampOf(stamps, s[i]), StampOf(stamps, x))
        {
          if i < |s| - 1 {
            NotLessTransitive(StampOf(stamps, s[i]), StampOf(stamps, last), StampOf(stamps, x));
          }
        }
        SortedAppend(stamps, s, x);
      }
    }
  }

  /** Only keys strictly older than `x` move behind it, so `x` lands after every key with
      its own timestamp. */
  lemma {:induction false} InsertByRecencyStable(stamps: map<string, string>, x: string, s: seq<string>, t: string)
    ensures WithStamp(stamps, InsertByRecency(stamps, x, s), t) == WithStamp(stamps, s + [x], t)
    decreases |s|
  {
    if |s| != 0 {
      var front, last := s[..|s| - 1], s[|s| - 1];
      if Less(StampOf(stamps, last), StampOf(stamps, x)) {
        assert s == front + [last];
        assert InsertByRecency(stamps, x, s) == InsertByRecency(stamps, x, front) + [last];
        InsertByRecencyStable(stamps, x, front, t);
        PastOlderStable(stamps, x, front, InsertByRecency(stamps, x, front), last, t);
      }
    }
  }

  lemma WithStampSingle(stamps: map<string, string>, k: string, t: string)
    ensures WithStamp(stamps, [k], t) == if StampOf(stamps, k) == t then [k] else []
  {
    assert [k][1..] == [];
  }

  /** The step of InsertByRecencyStable where `x` moves past a strictly older key. */
  lemma PastOlderStable(stamps: map<string, string>, x: string, front: seq<string>, ins: seq<string>, last: string, t: string)
    requires Less(StampOf(stamps, last), StampOf(stamps, x))
    requires WithStamp(stamps, ins, t) == WithStamp(stamps, front + [x], t)
    ensures WithStamp(stamps, ins + [last], t) == WithStamp(stamps, front + [last] + [x], t)
  {
    var wx, wl := WithStamp(stamps, [x], t), WithStamp(stamps, [last], t);
    LessIrreflexive(StampOf(stamps, x));
    WithStampSingle(stamps, x, t);
    WithStampSingle(stamps, last, t);
    assert wx == [] || wl == [];
    calc {
      WithStamp(stamps, ins + [last], t);
    == { WithStampAppend(stamps, ins, [last], t); }
      WithStamp(stamps, front + [x], t) + wl;
    == { WithStampAppend(stamps, front, [x], t); }
      WithStamp(stamps, front, t) + wx + wl;
    ==
      WithStamp(stamps, front, t) + wl + wx;
    == { WithStampAppend(stamps, front, [last], t); }
      WithStamp(stamps, front + [last], t) + wx;
    == { WithStampAppend(stamps, front + [last], [x], t); }
      WithStamp(stamps, front + [last] + [x], t);
    }
  }

  // ---------------------------------------------------------------------------------
  // The recency order

  lemma {:induction false} RecencyOrderPermutes(stamps: map<string, string>, e: seq<string>)
    ensures multiset(RecencyOrder(stamps, e)) == multiset(e)
    decreases |e|
  {
    if |e| != 0 {
      var front, last := e[..|e| - 1], e[|e| - 1];
      var sorted := RecencyOrder(stamps, front);
      assert RecencyOrder(stamps, e) == InsertByRecency(stamps, last, sorted);
      RecencyOrderPermutes(stamps, front);
      InsertByRecencyPermutes(stamps, last, sorted);
      assert e == front + [last];
      assert multiset(e) == multiset(front) + multiset{last};
    }
  }

  lemma {:induction false} RecencyOrderSorted(stamps: map<string, string>, e: seq<string>)
    ensures SortedByRecency(stamps, RecencyOrder(stamps, e))
    decreases |e|
  {
    if |e| != 0 {
      RecencyOrderSorted(stamps, e[..|e| - 1]);
      InsertByRecencySorted(stamps, e[|e| - 1], RecencyOrder(stamps, e[..|e| - 1]));
    }
  }

  lemma {:induction false} RecencyOrderStable(stamps: map<string, string>, e: seq<string>)
    ensures StableFor(stamps, RecencyOrder(stamps, e), e)
    decreases |e|
  {
    if |e| != 0 {
      var front, last := e[..|e| - 1], e[|e| - 1];
      RecencyOrderStable(stamps, front);
      forall t ensures WithStamp(stamps, RecencyOrder(stamps, e), t) == WithStamp(stamps, e, t) {
        InsertByRecencyStable(stamps, last, RecencyOrder(stamps, front), t);
        WithStampAppend(stamps, RecencyOrder(stamps, front), [last], t);
        WithStampAppend(stamps, front, [last], t);
        assert e == front + [last];
      }
    }
  }

  /** The first key of a sorted arrangement is at least as recent as the first key of any
      arrangement with the same timestamp groups. */
  lemma FirstIsNewest(stamps: map<string, string>, s1: seq<string>, s2: seq<string>)
    requires |s1| != 0 && |s2| != 0
    requires SortedByRecency(stamps, s2)
    requires forall t :: WithStamp(stamps, s1, t) == WithStamp(stamps, s2, t)
    ensures !Less(StampOf(stamps, s2[0]), StampOf(stamps, s1[0]))
  {
    var t := StampOf(stamps, s1[0]);
    assert WithStamp(stamps, s1, t) == [s1[0]] + WithStamp(stamps, s1[1..], t);
    var y := WithStamp(stamps, s2, t)[0];
    WithStampMembers(stamps, s2, t);
    assert y in WithStamp(stamps, s2, t);
    var k :| 0 <= k < |s2| && s2[k] == y;
    if k == 0 {
      LessIrreflexive(t);
    }
  }

  lemma WithStampHead(stamps: map<string, string>, s: seq<string>)
    requires |s| != 0
    ensures WithStamp(stamps, s, StampOf(stamps, s[0])) == [s[0]] + WithStamp(stamps, s[1..], StampOf(stamps, s[0]))
  {
  }

  /** A sorted arrangement is determined by its timestamp groups: whatever algorithm a
      stable sort uses, its result is the same. */
  lemma {:induction false} StableSortUnique(stamps: map<string, string>, s1: seq<string>, s2: seq<string>)
    requires SortedByRecency(stamps, s1) && SortedByRecency(stamps, s2)
    requires forall t :: WithStamp(stamps, s1, t) == WithStamp(stamps, s2, t)
    ensures s1 == s2
    decreases |s1|
  {
    if |s1| != 0 {
      WithStampHead(stamps, s1);
    }
    if |s2| != 0 {
      WithStampHead(stamps, s2);
    }
    if |s1| != 0 {
      var a, b := s1[0], s2[0];
      FirstIsNewest(stamps, s1, s2);
      FirstIsNewest(stamps, s2, s1);
      LessTotal(StampOf(stamps, a), StampOf(stamps, b));
      var ta := StampOf(stamps, a);
      assert StampOf(stamps, b) == ta;
      assert WithStamp(stamps, s1, ta) == [a] + WithStamp(stamps, s1[1..], ta);
      assert WithStamp(stamps, s2, ta) == [b] + WithStamp(stamps, s2[1..], ta);
      assert a == WithStamp(stamps, s1, ta)[0] == WithStamp(stamps, s2, ta)[0] == b;
      forall t ensures WithStamp(stamps, s1[1..], t) == WithStamp(stamps, s2[1..], t) {
        var head := if ta == t then [a] else [];
        assert WithStamp(stamps, s1, t) == head + WithStamp(stamps, s1[1..], t);
        assert WithStamp(stamps, s2, t) == head + WithStamp(stamps, s2[1..], t);
        assert WithStamp(stamps, s1[1..], t) == WithStamp(stamps, s1, t)[|head|..];
        assert WithStamp(stamps, s2[1..], t) == WithStamp(stamps, s2, t)[|head|..];
      }
      assert SortedByRecency(stamps, s1[1..]) by {
        forall i, j | 0 <= i < j < |s1[1..]|
          ensures !Less(StampOf(stamps, s1[1..][i]), StampOf(stamps, s1[1..][j]))
        {
          assert s1[1..][i] == s1[i + 1] && s1[1..][j] == s1[j + 1];
        }
      }
      assert SortedByRecency(stamps, s2[1..]) by {
        forall i, j | 0 <= i < j < |s2[1..]|
          ensures !Less(StampOf(stamps, s2[1..][i]), StampOf(stamps, s2[1..][j]))
        {
          assert s2[1..][i] == s2[i + 1] && s2[1..][j] == s2[j + 1];
        }
      }
      StableSortUnique(stamps, s1[1..], s2[1..]);
      assert s1 == [a] + s1[1..] && s2 == [b] + s2[1..];
    }
  }

  /** The recency order is the one arrangement of the enumeration that is newest first and
      keeps equal timestamps in enumeration order (both directions). */
  lemma RecencyOrderCharacterized(stamps: map<string, string>, e: seq<string>, s: seq<string>)
    ensures s == RecencyOrder(stamps, e) <==> SortedByRecency(stamps, s) && StableFor(stamps, s, e)
  {
    RecencyOrderSorted(stamps, e);
    RecencyOrderStable(stamps, e);
    if SortedByRecency(stamps, s) && StableFor(stamps, s, e) {
      StableSortUnique(stamps, s, RecencyOrder(stamps, e));
    }
  }

  // ---------------------------------------------------------------------------------
  // Enumerations

  lemma {:induction false} DistinctLength(e: seq<string>, keys: set<string>)
    requires IsEnumeration(e, keys)
    ensures |e| == |keys|
    decreases |e|
  {
    if |e| != 0 {
      var rest := keys - {e[0]};
      assert IsEnumeration(e[1..], rest) by {
        forall k ensures k in rest <==> k in e[1..] {
          if k in e[1..] {
            var j :| 0 <= j < |e[1..]| && e[1..][j] == k;
            assert e[j + 1] == k;
          }
          if k in e && k != e[0] {
            var j :| 0 <= j < |e| && e[j] == k;
            assert e[1..][j - 1] == k;
          }
        }
      }
      DistinctLength(e[1..], rest);
    }
  }

  lemma DistinctAppend(s: seq<string>, x: string)
    requires Distinct(s) && x !in s
    ensures Distinct(s + [x])
  {
    forall i, j | 0 <= i < j < |s + [x]| ensures (s + [x])[i] != (s + [x])[j] {
      assert (s + [x])[i] == s[i];
      if j < |s| {
        assert (s + [x])[j] == s[j];
      }
    }
  }

  lemma {:induction false} InsertByRecencyDistinct(stamps: map<string, string>, x: string, s: seq<string>)
    requires Distinct(s) && x !in s
    ensures Distinct(InsertByRecency(stamps, x, s))
    decreases |s|
  {
    if |s| == 0 {
    } else if Less(StampOf(stamps, s[|s| - 1]), StampOf(stamps, x)) {
      var front, last := s[..|s| - 1], s[|s| - 1];
      assert Distinct(front);
      assert last !in front;
      InsertByRecencyDistinct(stamps, x, front);
      InsertByRecencyPermutes(stamps, x, front);
      assert last !in multiset(InsertByRecency(stamps, x, front));
      DistinctAppend(InsertByRecency(stamps, x, front), last);
    } else {
      DistinctAppend(s, x);
    }
  }

  lemma {:induction false} RecencyOrderDistinct(stamps: map<string, string>, e: seq<string>)
    requires Distinct(e)
    ensures Distinct(RecencyOrder(stamps, e))
    decreases |e|
  {
    if |e| != 0 {
      var front, last := e[..|e| - 1], e[|e| - 1];
      assert Distinct(front);
      RecencyOrderDistinct(stamps, front);
      RecencyOrderPermutes(stamps, front);
      assert last !in front;
      assert last !in multiset(RecencyOrder(stamps, front));
      InsertByRecencyDistinct(stamps, last, RecencyOrder(stamps, front));
    }
  }

  /** The recency order lists every key of the map exactly once. */
  lemma RecencyOrderEnumerates(stamps: map<string, string>, e: seq<string>)
    requires IsEnumeration(e, stamps.Keys)
    ensures IsEnumeration(RecencyOrder(stamps, e), stamps.Keys)
    ensures |RecencyOrder(stamps, e)| == |stamps|
  {
    var s := RecencyOrder(stamps, e);
    RecencyOrderPermutes(stamps, e);
    RecencyOrderDistinct(stamps, e);
    forall k ensures k in stamps <==> k in s {
      assert k in s <==> k in multiset(s);
      assert k in e <==> k in multiset(e);
    }
    DistinctLength(s, stamps.Keys);
  }

  /** A key strictly newer than every other key comes first. */
  lemma NewestComesFirst(stamps: map<string, string>, e: seq<string>, x: string)
    requires IsEnumeration(e, stamps.Keys) && x in stamps
    requires forall k :: k in stamps && k != x ==> Less(stamps[k], stamps[x])
    ensures |RecencyOrder(stamps, e)| != 0 && RecencyOrder(stamps, e)[0] == x
  {
    var s := RecencyOrder(stamps, e);
    RecencyOrderEnumerates(stamps, e);
    RecencyOrderSorted(stamps, e);
    var i :| 0 <= i < |s| && s[i] == x;
  }

  lemma {:induction false} WithStampEmpty(stamps: map<string, string>, s: seq<string>, t: string)
    requires forall y :: y in s ==> StampOf(stamps, y) != t
    ensures WithStamp(stamps, s, t) == []
    decreases |s|
  {
    if |s| != 0 {
      assert s[0] in s;
      assert forall y :: y in s[1..] ==> y in s;
      WithStampEmpty(stamps, s[1..], t);
    }
  }

  /** Where no two keys share a timestamp, each timestamp group holds at most one key. */
  lemma {:induction false} WithStampAtMostOne(stamps: map<string, string>, e: seq<string>, t: string)
    requires Distinct(e)
    requires forall a, b :: a in e && b in e && StampOf(stamps, a) == t && StampOf(stamps, b) == t ==> a == b
    ensures |WithStamp(stamps, e, t)| <= 1
    decreases |e|
  {
    if |e| != 0 {
      assert Distinct(e[1..]) by {
        forall i, j | 0 <= i < j < |e[1..]| ensures e[1..][i] != e[1..][j] {
          assert e[1..][i] == e[i + 1] && e[1..][j] == e[j + 1];
        }
      }
      WithStampAtMostOne(stamps, e[1..], t);
      if StampOf(stamps, e[0]) == t {
        forall y | y in e[1..] ensures StampOf(stamps, y) != t {
          var j :| 0 <= j < |e[1..]| && e[1..][j] == y;
          assert e[j + 1] == y;
        }
        WithStampEmpty(stamps, e[1..], t);
      }
    }
  }

  /** With pairwise distinct timestamps, every enumeration of the same keys has the same
      timestamp groups. */
  lemma SameGroupsWhenStampsDistinct(stamps: map<string, string>, e1: seq<string>, e2: seq<string>)
    requires IsEnumeration(e1, stamps.Keys) && IsEnumeration(e2, stamps.Keys)
    requires forall a, b :: a in stamps && b in stamps && stamps[a] == stamps[b] ==> a == b
    ensures StableFor(stamps, e1, e2)
  {
    forall t ensures WithStamp(stamps, e1, t) == WithStamp(stamps, e2, t) {
      SameGroupWhenStampsDistinct(stamps, e1, e2, t);
    }
  }

  lemma SameGroupWhenStampsDistinct(stamps: map<string, string>, e1: seq<string>, e2: seq<string>, t: string)
    requires IsEnumeration(e1, stamps.Keys) && IsEnumeration(e2, stamps.Keys)
    requires forall a, b :: a in stamps && b in stamps && stamps[a] == stamps[b] ==> a == b
    ensures WithStamp(stamps, e1, t) == WithStamp(stamps, e2, t)
  {
    AtMostOneWithStamp(stamps, e1, t);
    AtMostOneWithStamp(stamps, e2, t);
    WithStampMembers(stamps, e1, t);
    WithStampMembers(stamps, e2, t);
    SingletonsAgree(WithStamp(stamps, e1, t), WithStamp(stamps, e2, t));
  }

  lemma AtMostOneWithStamp(stamps: map<string, string>, e: seq<string>, t: string)
    requires IsEnumeration(e, stamps.Keys)
    requires forall a, b :: a in stamps && b in stamps && stamps[a] == stamps[b] ==> a == b
    ensures |WithStamp(stamps, e, t)| <= 1
  {
    forall a, b | a in e && b in e && StampOf(stamps, a) == t && StampOf(stamps, b) == t
      ensures a == b
    {
      assert a in stamps && b in stamps;
    }
    WithStampAtMostOne(stamps, e, t);
  }

  lemma SingletonsAgree(w1: seq<string>, w2: seq<string>)
    requires |w1| <= 1 && |w2| <= 1
    requires forall x :: x in w1 <==> x in w2
    ensures w1 == w2
  {
    if |w1| == 1 {
      assert w1[0] in w2;
    }
    if |w2| == 1 {
      assert w2[0] in w1;
    }
  }

  /** With pairwise distinct timestamps the recency order does not depend on the map's
      iteration order. */
  lemma OrderIgnoresEnumeration(stamps: map<string, string>, e1: seq<string>, e2: seq<string>)
    requires IsEnumeration(e1, stamps.Keys) && IsEnumeration(e2, stamps.Keys)
    requires forall a, b :: a in stamps && b in stamps && stamps[a] == stamps[b] ==> a == b
    ensures RecencyOrder(stamps, e1) == RecencyOrder(stamps, e2)
  {
    SameGroupsWhenStampsDistinct(stamps, e1, e2);
    RecencyOrderStable(stamps, e1);
    RecencyOrderStable(stamps, e2);
    RecencyOrderSorted(stamps, e1);
    RecencyOrderSorted(stamps, e2);
    StableSortUnique(stamps, RecencyOrder(stamps, e1), RecencyOrder(stamps, e2));
  }

  // ---------------------------------------------------------------------------------
  // The sort as the source runs it

  /** Where insertion puts `x`: after the prefix it does not pass, before the strictly
      older keys it moves past. */
  lemma {:induction false} InsertByRecencyAt(stamps: map<string, string>, x: string, s: seq<string>, j: int)
    requires 0 <= j <= |s|
    requires forall m :: j <= m < |s| ==> Less(StampOf(stamps, s[m]), StampOf(stamps, x))
    requires j > 0 ==> !Less(StampOf(stamps, s[j - 1]), StampOf(stamps, x))
    ensures InsertByRecency(stamps, x, s) == s[..j] + [x] + s[j..]
    decreases |s|
  {
    if |s| == j {
      assert s[..j] == s && s[j..] == [];
    } else {
      var front, last := s[..|s| - 1], s[|s| - 1];
      assert Less(StampOf(stamps, last), StampOf(stamps, x));
      assert InsertByRecency(stamps, x, s) == InsertByRecency(stamps, x, front) + [last];
      InsertByRecencyAt(stamps, x, front, j);
      assert front[..j] == s[..j];
      assert s[j..] == front[j..] + [last];
      assert front[..j] + [x] + front[j..] + [last] == s[..j] + [x] + s[j..];
    }
  }

  lemma InsertDone(stamps: map<string, string>, a: array<string>, x: string, stamp: string, sorted: seq<string>, rest: seq<string>, j: int)
    requires stamp == StampOf(stamps, x)
    requires 0 <= j <= |sorted| && a.Length == |sorted| + 1 + |rest|
    requires forall k :: 0 <= k < j ==> a[k] == sorted[k]
    requires a[j] == x
    requires forall k :: j < k <= |sorted| ==> a[k] == sorted[k - 1]
    requires forall k :: |sorted| < k < a.Length ==> a[k] == rest[k - |sorted| - 1]
    requires forall m :: j < m <= |sorted| ==> Less(StampOf(stamps, a[m]), stamp)
    requires j > 0 ==> !Less(StampOf(stamps, a[j - 1]), stamp)
    ensures a[..|sorted| + 1] == InsertByRecency(stamps, x, sorted)
    ensures a[|sorted| + 1..] == rest
  {
    assert forall m :: j <= m < |sorted| ==> a[m + 1] == sorted[m];
    InsertByRecencyAt(stamps, x, sorted, j);
    var placed := sorted[..j] + [x] + sorted[j..];
    forall k | 0 <= k <= |sorted| ensures a[k] == placed[k] {
      if k > j {
        assert placed[k] == sorted[j..][k - j - 1];
      }
    }
    assert a[..|sorted| + 1] == placed;
  }

  /** Moves `a[i]` left past the strictly older keys of the sorted prefix `a[..i]` by
      adjacent swaps, as the insertion sort inside sort.SliceStable does. */
  method InsertIntoPrefix(stamps: map<string, string>, a: array<string>, i: int)
    requires 0 <= i < a.Length
    modifies a
    ensures a[..i + 1] == InsertByRecency(stamps, old(a[i]), old(a[..i]))
    ensures a[i + 1..] == old(a[i + 1..])
  {
    ghost var sorted := a[..i];
    ghost var rest := a[i + 1..];
    var x := a[i];
    var j := i;
    var stamp := StampOf(stamps, x);
    while j > 0 && Less(StampOf(stamps, a[j - 1]), stamp)
      invariant 0 <= j <= i
      invariant forall k :: 0 <= k < j ==> a[k] == sorted[k]
      invariant a[j] == x
      invariant forall k :: j < k <= i ==> a[k] == sorted[k - 1]
      invariant forall k :: i < k < a.Length ==> a[k] == rest[k - i - 1]
      invariant forall m :: j < m <= i ==> Less(StampOf(stamps, a[m]), stamp)
    {
      a[j - 1], a[j] := a[j], a[j - 1];
      j := j - 1;
    }
    InsertDone(stamps, a, x, stamp, sorted, rest, j);
  }

  lemma RecencyOrderStep(stamps: map<string, string>, e: seq<string>, i: int)
    requires 0 <= i < |e|
    ensures RecencyOrder(stamps, e[..i + 1]) == InsertByRecency(stamps, e[i], RecencyOrder(stamps, e[..i]))
  {
    assert e[..i + 1][..i] == e[..i];
  }

  /** Sorts `a` in place, newest first, keeping ties in their order in `a`: one insertion
      per key, each into the already sorted prefix. */
  method SortByRecency(stamps: map<string, string>, a: array<string>)
    modifies a
    ensures a[..] == RecencyOrder(stamps, old(a[..]))
  {
    ghost var e := a[..];
    var i := 0;
    while i < a.Length
      invariant 0 <= i <= a.Length
      invariant a[..i] == RecencyOrder(stamps, e[..i])
      invariant a[i..] == e[i..]
    {
      ghost var before := a[..];
      assert before[i] == e[i] && before[..i] == a[..i];
      InsertIntoPrefix(stamps, a, i);
      RecencyOrderStep(stamps, e, i);
      assert a[i + 1..] == before[i + 1..] == e[i + 1..];
      i := i + 1;
    }
    assert e[..a.Length] == e;
  }

  /** Collects the keys in the map's iteration order `enumeration`, then sorts them in
      place, newest first, keeping ties in iteration order (sort.SliceStable, which for the
      sizes of a shell history is an insertion sort by adjacent swaps). */
  method SortRecords(stamps: map<string, string>, enumeration: seq<string>) returns (keys: seq<string>)
    requires IsEnumeration(enumeration, stamps.Keys)
    ensures keys == RecencyOrder(stamps, enumeration)
    ensures IsEnumeration(keys, stamps.Keys) && |keys| == |stamps|
    ensures SortedByRecency(stamps, keys)
    ensures StableFor(stamps, keys, enumeration)
  {
    var a := new string[|enumeration|];
    var n := 0;
    while n < a.Length
      invariant 0 <= n <= a.Length
      invariant a[..n] == enumeration[..n]
    {
      a[n] := enumeration[n];
      n := n + 1;
    }
    assert a[..] == enumeration;
    SortByRecency(stamps, a);
    keys := a[..];
    RecencyOrderEnumerates(stamps, enumeration);
    RecencyOrderSorted(stamps, enumeration);
    RecencyOrderStable(stamps, enumeration);
  }

  // ---------------------------------------------------------------------------------
  // The sort test of the repository

  const Stamp1 := "1990-01-01 00:00:01 +08"
  const Stamp2 := "1991-01-01 00:00:01 +08"
  const Stamp3 := "2024-04-01 12:34:12 +08"
  const Stamp4 := "2016-02-23 22:10:10 +08"

  const ExamplePaths: map<string, PathRecord> := map[
    "path1" := PathRecord(42, Stamp1),
    "path2" := PathRecord(69, Stamp2),
    "path3" := PathRecord(4, Stamp3),
    "path4" := PathRecord(12, Stamp4)]

  lemma ExampleStamps1Before2()
    ensures Less(Stamp1, Stamp2)
  {
    assert Stamp1[..3] == Stamp2[..3] && Stamp1[3] < Stamp2[3];
    LessAtFirstDifference(Stamp1, Stamp2, 3);
  }

  lemma ExampleStamps2Before4()
    ensures Less(Stamp2, Stamp4)
  {
    assert Stamp2[0] < Stamp4[0];
  }

  lemma ExampleStamps4Before3()
    ensures Less(Stamp4, Stamp3)
  {
    assert Stamp4[..2] == Stamp3[..2] && Stamp4[2] < Stamp3[2];
    LessAtFirstDifference(Stamp4, Stamp3, 2);
  }

  lemma ExampleKeysDistinct()
    ensures "path1" != "path2" && "path1" != "path3" && "path1" != "path4"
    ensures "path2" != "path3" && "path2" != "path4" && "path3" != "path4"
  {
    assert "path1"[4] != "path2"[4] && "path1"[4] != "path3"[4] && "path1"[4] != "path4"[4];
    assert "path2"[4] != "path3"[4] && "path2"[4] != "path4"[4] && "path3"[4] != "path4"[4];
  }

  lemma ExampleStamps()
    ensures PathStamps(ExamplePaths) == map["path1" := Stamp1, "path2" := Stamp2, "path3" := Stamp3, "path4" := Stamp4]
  {
  }

  lemma ExampleSorted(stamps: map<string, string>, t1: string, t2: string, t3: string, t4: string)
    requires StampOf(stamps, "path1") == t1 && StampOf(stamps, "path2") == t2
    requires StampOf(stamps, "path3") == t3 && StampOf(stamps, "path4") == t4
    requires Less(t1, t2) && Less(t2, t4) && Less(t4, t3)
    ensures SortedByRecency(stamps, ["path3", "path4", "path2", "path1"])
  {
    LessAsymmetric(t1, t2);
    LessAsymmetric(t2, t4);
    LessAsymmetric(t4, t3);
    SortedByAdjacent(stamps, ["path3", "path4", "path2", "path1"]);
  }

  lemma ExampleStampOf(stamps: map<string, string>)
    requires stamps == map["path1" := Stamp1, "path2" := Stamp2, "path3" := Stamp3, "path4" := Stamp4]
    ensures StampOf(stamps, "path1") == Stamp1 && StampOf(stamps, "path2") == Stamp2
    ensures StampOf(stamps, "path3") == Stamp3 && StampOf(stamps, "path4") == Stamp4
  {
    ExampleKeysDistinct();
  }

  lemma ExampleFacts(stamps: map<string, string>)
    requires stamps == PathStamps(ExamplePaths)
    ensures stamps.Keys == {"path1", "path2", "path3", "path4"}
    ensures StampOf(stamps, "path1") == Stamp1 && StampOf(stamps, "path2") == Stamp2
    ensures StampOf(stamps, "path3") == Stamp3 && StampOf(stamps, "path4") == Stamp4
  {
    ExampleStamps();
    ExampleStampOf(stamps);
  }

  lemma ExampleEnumeration(keys: set<string>)
    requires keys == {"path1", "path2", "path3", "path4"}
    ensures IsEnumeration(["path3", "path4", "path2", "path1"], keys)
  {
    ExampleKeysDistinct();
  }

  lemma ExampleStampsInjective(stamps: map<string, string>, t1: string, t2: string, t3: string, t4: string)
    requires stamps.Keys == {"path1", "path2", "path3", "path4"}
    requires StampOf(stamps, "path1") == t1 && StampOf(stamps, "path2") == t2
    requires StampOf(stamps, "path3") == t3 && StampOf(stamps, "path4") == t4
    requires Less(t1, t2) && Less(t2, t4) && Less(t4, t3)
    ensures forall a, b :: a in stamps && b in stamps && stamps[a] == stamps[b] ==> a == b
  {
    LessTransitive(t1, t2, t4);
    LessTransitive(t2, t4, t3);
    LessTransitive(t1, t4, t3);
    LessIrreflexive(t1);
    LessIrreflexive(t2);
    LessIrreflexive(t4);
    assert t1 != t2 && t1 != t3 && t1 != t4 && t2 != t3 && t2 != t4 && t3 != t4;
  }

  /** Four records whose timestamps are ordered as those of the test sort as path3, path4,
      path2, path1, whatever the iteration order. */
  lemma FourRecordsOrder(stamps: map<string, string>, e: seq<string>, t1: string, t2: string, t3: string, t4: string)
    requires stamps.Keys == {"path1", "path2", "path3", "path4"}
    requires StampOf(stamps, "path1") == t1 && StampOf(stamps, "path2") == t2
    requires StampOf(stamps, "path3") == t3 && StampOf(stamps, "path4") == t4
    requires Less(t1, t2) && Less(t2, t4) && Less(t4, t3)
    requires IsEnumeration(e, stamps.Keys)
    ensures RecencyOrder(stamps, e) == ["path3", "path4", "path2", "path1"]
  {
    var expected := ["path3", "path4", "path2", "path1"];
    ExampleSorted(stamps, t1, t2, t3, t4);
    ExampleEnumeration(stamps.Keys);
    ExampleStampsInjective(stamps, t1, t2, t3, t4);
    SameGroupsWhenStampsDistinct(stamps, e, expected);
    RecencyOrderStable(stamps, e);
    RecencyOrderSorted(stamps, e);
    StableSortUnique(stamps, RecencyOrder(stamps, e), expected);
  }

  /** Whatever order the map is iterated in, the four test records sort as path3, path4,
      path2, path1. */
  lemma SortRecordsExample(e: seq<string>)
    requires IsEnumeration(e, ExamplePaths.Keys)
    ensures RecencyOrder(PathStamps(ExamplePaths), e) == ["path3", "path4", "path2", "path1"]
  {
    var stamps := PathStamps(ExamplePaths);
    ExampleFacts(stamps);
    ExampleStamps1Before2();
    ExampleStamps2Before4();
    ExampleStamps4Before3();
    FourRecordsOrder(stamps, e, Stamp1, Stamp2, Stamp3, Stamp4);
  }
}
