/**
 * The process table as a sequence of records in store order, and the
 * queries the controller runs against it: lookup by PID, removal by PID,
 * selection by priority name, the priority-based eviction choice and the
 * listing order.
 */
module ProcessTable {

  import opened Wrappers
  import opened Models

  /** PID is the key: no two records share one. */
  predicate UniquePids(s: seq<Process>) {
    forall i, j :: 0 <= i < j < |s| ==> s[i].pid != s[j].pid
  }

  /** Records appear in the order they were created, each strictly after the previous one. */
  predicate StrictlyAged(s: seq<Process>) {
    forall i, j :: 0 <= i < j < |s| ==> s[i].createdAt < s[j].createdAt
  }

  predicate HasPid(s: seq<Process>, id: int) {
    exists i :: 0 <= i < |s| && s[i].pid == id
  }

  /** The set of PIDs the table holds. */
  function PidsOf(s: seq<Process>): (r: set<int>)
    ensures forall i :: 0 <= i < |s| ==> s[i].pid in r
  {
    if s == [] then {} else {s[0].pid} + PidsOf(s[1..])
  }

  lemma {:induction false} PidsOfConcat(a: seq<Process>, b: seq<Process>)
    ensures PidsOf(a + b) == PidsOf(a) + PidsOf(b)
  {
    if a != [] {
      PidsOfConcat(a[1..], b);
      assert (a + b)[1..] == a[1..] + b;
    } else {
      assert a + b == b;
    }
  }

  /** A PID no record carries is not among the table's PIDs. */
  lemma {:induction false} AbsentPid(s: seq<Process>, id: int)
    requires forall i :: 0 <= i < |s| ==> s[i].pid != id
    ensures id !in PidsOf(s)
  {
    if s != [] {
      AbsentPid(s[1..], id);
    }
  }

  // ---------------------------------------------------------------------------
  // Lookup by PID
  // ---------------------------------------------------------------------------

  /** The position of the record with PID `id`, or None when there is none. */
  function IndexOfPid(s: seq<Process>, id: int): (r: Option<nat>)
    ensures r.None? <==> !HasPid(s, id)
    ensures r.Some? ==> r.value < |s| && s[r.value].pid == id
    ensures r.Some? ==> forall j :: 0 <= j < r.value ==> s[j].pid != id
  {
    if s == [] then None
    else if s[0].pid == id then Some(0)
    else
      match IndexOfPid(s[1..], id)
      case None => None
      case Some(k) => Some(k + 1)
  }

  /** Under the key invariant, a lookup by PID finds the only record carrying it. */
  lemma LookupIsUnique(s: seq<Process>, id: int, j: int)
    requires UniquePids(s)
    requires 0 <= j < |s| && s[j].pid == id
    ensures IndexOfPid(s, id) == Some(j)
  {
  }

  // ---------------------------------------------------------------------------
  // Removal by PID
  // ---------------------------------------------------------------------------

  /** The table without the records whose PID is in `ids`, in the same order. */
  function WithoutPids(s: seq<Process>, ids: set<int>): (r: seq<Process>)
    ensures |r| <= |s|
    ensures forall i :: 0 <= i < |r| ==> r[i].pid !in ids
  {
    if s == [] then []
    else (if s[0].pid in ids then [] else [s[0]]) + WithoutPids(s[1..], ids)
  }

  /** The records left are exactly those whose PID is not among the removed ids. */
  lemma {:induction false} WithoutPidsMembers(s: seq<Process>, ids: set<int>)
    ensures forall x :: x in WithoutPids(s, ids) <==> x in s && x.pid !in ids
  {
    if s != [] {
      WithoutPidsMembers(s[1..], ids);
      assert s == [s[0]] + s[1..];
    }
  }

  /** Removing records keeps the key invariant. */
  lemma {:induction false} WithoutPidsKeepsUnique(s: seq<Process>, ids: set<int>)
    requires UniquePids(s)
    ensures UniquePids(WithoutPids(s, ids))
  {
    if s != [] {
      var t := s[1..];
      assert UniquePids(t);
      WithoutPidsKeepsUnique(t, ids);
      var rest := WithoutPids(t, ids);
      WithoutPidsMembers(t, ids);
      if s[0].pid !in ids {
        forall j | 0 <= j < |rest| ensures rest[j].pid != s[0].pid {
          assert rest[j] in t;
          var i :| 0 <= i < |t| && t[i] == rest[j];
          assert s[i + 1] == t[i];
        }
      }
    }
  }

  /** Removing records keeps the creation order. */
  lemma {:induction false} WithoutPidsKeepsAge(s: seq<Process>, ids: set<int>)
    requires StrictlyAged(s)
    ensures StrictlyAged(WithoutPids(s, ids))
  {
    if s != [] {
      var t := s[1..];
      assert StrictlyAged(t);
      WithoutPidsKeepsAge(t, ids);
      var rest := WithoutPids(t, ids);
      WithoutPidsMembers(t, ids);
      if s[0].pid !in ids {
        forall j | 0 <= j < |rest| ensures s[0].createdAt < rest[j].createdAt {
          assert rest[j] in t;
          var i :| 0 <= i < |t| && t[i] == rest[j];
          assert s[i + 1] == t[i];
        }
      }
    }
  }

  /** Removing ids that no record carries changes nothing. */
  lemma {:induction false} WithoutAbsentPids(s: seq<Process>, ids: set<int>)
    requires forall i :: 0 <= i < |s| ==> s[i].pid !in ids
    ensures WithoutPids(s, ids) == s
  {
    if s != [] {
      WithoutAbsentPids(s[1..], ids);
      assert s == [s[0]] + s[1..];
    }
  }

  /** Removing every id the records carry empties the table. */
  lemma {:induction false} WithoutCoveredPids(s: seq<Process>, ids: set<int>)
    requires forall i :: 0 <= i < |s| ==> s[i].pid in ids
    ensures WithoutPids(s, ids) == []
  {
    if s != [] {
      WithoutCoveredPids(s[1..], ids);
    }
  }

  /** Removing every PID the table holds empties it. */
  lemma WithoutAllPids(s: seq<Process>)
    ensures WithoutPids(s, PidsOf(s)) == []
  {
    WithoutCoveredPids(s, PidsOf(s));
  }

  /** Ids that no record carries can be dropped from a removal. */
  lemma {:induction false} WithoutPidsIgnoresAbsent(s: seq<Process>, ids: set<int>, extra: set<int>)
    requires forall i :: 0 <= i < |s| ==> s[i].pid !in extra
    ensures WithoutPids(s, ids + extra) == WithoutPids(s, ids)
  {
    if s != [] {
      WithoutPidsIgnoresAbsent(s[1..], ids, extra);
    }
  }

  /** Two removals in a row are one removal of both sets of ids. */
  lemma {:induction false} WithoutPidsTwice(s: seq<Process>, a: set<int>, b: set<int>)
    ensures WithoutPids(WithoutPids(s, a), b) == WithoutPids(s, a + b)
  {
    if s != [] {
      var t := s[1..];
      WithoutPidsTwice(t, a, b);
      if s[0].pid !in a {
        var u := WithoutPids(t, a);
        assert WithoutPids(s, a) == [s[0]] + u;
        assert ([s[0]] + u)[1..] == u;
        assert WithoutPids([s[0]] + u, b)
          == (if s[0].pid in b then [] else [s[0]]) + WithoutPids(u, b);
      } else {
        assert WithoutPids(s, a) == WithoutPids(t, a);
        assert WithoutPids(s, a + b) == WithoutPids(t, a + b);
      }
    }
  }

  /** Under the key invariant, removing the first record's PID removes exactly that record. */
  lemma WithoutHeadPid(s: seq<Process>)
    requires UniquePids(s) && s != []
    ensures WithoutPids(s, {s[0].pid}) == s[1..]
  {
    var t := s[1..];
    forall i | 0 <= i < |t| ensures t[i].pid !in {s[0].pid} {
      assert t[i] == s[i + 1];
    }
    WithoutAbsentPids(t, {s[0].pid});
  }

  /** Under the key invariant, removing the PID at position k removes exactly that record. */
  lemma {:induction false} WithoutPidAt(s: seq<Process>, k: nat, id: int)
    requires UniquePids(s) && k < |s| && s[k].pid == id
    ensures WithoutPids(s, {id}) == s[..k] + s[k + 1..]
  {
    if k == 0 {
      WithoutHeadPid(s);
      assert s[..0] + s[1..] == s[1..];
    } else {
      var t := s[1..];
      var u := t[..k - 1] + t[k..];
      assert WithoutPids(t, {id}) == u by {
        assert UniquePids(t) by {
          forall i, j | 0 <= i < j < |t| ensures t[i].pid != t[j].pid {
            assert t[i] == s[i + 1] && t[j] == s[j + 1];
          }
        }
        assert t[k - 1] == s[k];
        WithoutPidAt(t, k - 1, id);
      }
      assert WithoutPids(s, {id}) == [s[0]] + WithoutPids(t, {id}) by {
        assert s[0].pid != id;
      }
      assert s[..k] + s[k + 1..] == [s[0]] + u by {
        assert s[..k] == [s[0]] + t[..k - 1];
        assert s[k + 1..] == t[k..];
      }
    }
  }

  // ---------------------------------------------------------------------------
  // Selection by priority name
  // ---------------------------------------------------------------------------

  /** The records whose priority name equals `name` ignoring case, in store order. */
  function OfPriorityName(s: seq<Process>, name: string): (r: seq<Process>)
    ensures |r| <= |s|
    ensures forall x :: x in r <==> x in s && MatchesName(x.priority, name)
  {
    if s == [] then []
    else (if MatchesName(s[0].priority, name) then [s[0]] else []) + OfPriorityName(s[1..], name)
  }

  /** The records whose priority name differs from `name` ignoring case, in store order. */
  function OtherPriorities(s: seq<Process>, name: string): (r: seq<Process>)
    ensures |r| <= |s|
    ensures forall x :: x in r <==> x in s && !MatchesName(x.priority, name)
  {
    if s == [] then []
    else (if MatchesName(s[0].priority, name) then [] else [s[0]]) + OtherPriorities(s[1..], name)
  }

  lemma {:induction false} MatchingPidsAreHeld(s: seq<Process>, name: string)
    ensures PidsOf(OfPriorityName(s, name)) <= PidsOf(s)
  {
    if s != [] {
      MatchingPidsAreHeld(s[1..], name);
      var m := OfPriorityName(s[1..], name);
      if MatchesName(s[0].priority, name) {
        assert ([s[0]] + m)[1..] == m;
      } else {
        assert [] + m == m;
      }
    }
  }

  /** Under the key invariant, removing the PIDs of the matching records leaves exactly the others. */
  lemma {:induction false} RemoveMatchingLeavesOthers(s: seq<Process>, name: string)
    requires UniquePids(s)
    ensures WithoutPids(s, PidsOf(OfPriorityName(s, name))) == OtherPriorities(s, name)
  {
    if s != [] {
      var t := s[1..];
      assert UniquePids(t);
      RemoveMatchingLeavesOthers(t, name);
      var m := OfPriorityName(t, name);
      var tIds := PidsOf(m);
      var ids := PidsOf(OfPriorityName(s, name));
      forall i | 0 <= i < |t| ensures t[i].pid != s[0].pid {
        assert t[i] == s[i + 1];
      }
      AbsentPid(t, s[0].pid);
      MatchingPidsAreHeld(t, name);
      if MatchesName(s[0].priority, name) {
        assert OfPriorityName(s, name) == [s[0]] + m;
        assert ([s[0]] + m)[1..] == m;
        assert ids == tIds + {s[0].pid};
        WithoutPidsIgnoresAbsent(t, tIds, {s[0].pid});
      } else {
        assert OfPriorityName(s, name) == m;
      }
    }
  }

  // ---------------------------------------------------------------------------
  // Priority-based eviction choice
  // ---------------------------------------------------------------------------

  /** The (CreatedAt, Priority) ordering the priority-based eviction sorts by. */
  predicate OlderThan(a: Process, b: Process) {
    a.createdAt < b.createdAt || (a.createdAt == b.createdAt && Below(a.priority, b.priority))
  }

  /**
   * Position k holds the record the priority-based eviction takes: its priority is
   * strictly below `incoming`, no such record comes before it in (CreatedAt,
   * Priority) order, and it is the first in store order among those that tie with it.
   */
  predicate IsOldestBelow(s: seq<Process>, incoming: Priority, k: int) {
    && 0 <= k < |s|
    && Below(s[k].priority, incoming)
    && (forall j :: 0 <= j < |s| && Below(s[j].priority, incoming) ==> !OlderThan(s[j], s[k]))
    && (forall j :: 0 <= j < k && Below(s[j].priority, incoming) ==> OlderThan(s[k], s[j]))
  }

  /** The record to evict for an incoming priority, or None when no record has a lower priority. */
  function OldestBelow(s: seq<Process>, incoming: Priority): (r: Option<nat>)
    ensures r.None? <==> forall j :: 0 <= j < |s| ==> !Below(s[j].priority, incoming)
    ensures r.Some? ==> IsOldestBelow(s, incoming, r.value)
  {
    if s == [] then None
    else
      var rest := OldestBelow(s[1..], incoming);
      if !Below(s[0].priority, incoming) then
        (match rest case None => None case Some(k) => Some(k + 1))
      else if rest.None? || !OlderThan(s[1..][rest.value], s[0]) then Some(0)
      else Some(rest.value + 1)
  }

  /** At most one position satisfies IsOldestBelow, so the eviction choice is determined. */
  lemma OldestBelowIsUnique(s: seq<Process>, incoming: Priority, k1: int, k2: int)
    requires IsOldestBelow(s, incoming, k1) && IsOldestBelow(s, incoming, k2)
    ensures k1 == k2
  {
  }

  /** A record whose priority is not strictly below the incoming one is never the eviction choice. */
  lemma NeverEvictsEqualOrHigher(s: seq<Process>, incoming: Priority, j: int)
    requires 0 <= j < |s| && !Below(s[j].priority, incoming)
    ensures OldestBelow(s, incoming) != Some(j)
  {
  }

  /** When records are in creation order, the eviction choice is the first lower-priority record in store order. */
  lemma OldestBelowIsFirstInStore(s: seq<Process>, incoming: Priority, k: nat)
    requires StrictlyAged(s)
    requires OldestBelow(s, incoming) == Some(k)
    ensures forall j :: 0 <= j < k ==> !Below(s[j].priority, incoming)
  {
  }

  // ---------------------------------------------------------------------------
  // Listing order
  // ---------------------------------------------------------------------------

  /** The listing order: CreatedAt, then Priority, then PID. */
  predicate ListedNoLater(a: Process, b: Process) {
    || a.createdAt < b.createdAt
    || (a.createdAt == b.createdAt && Rank(a.priority) < Rank(b.priority))
    || (a.createdAt == b.createdAt && a.priority == b.priority && a.pid <= b.pid)
  }

  predicate SortedForListing(s: seq<Process>) {
    forall i, j :: 0 <= i < j < |s| ==> ListedNoLater(s[i], s[j])
  }

  /** Places `x` in a table before the first record it does not follow. */
  function InsertForListing(x: Process, s: seq<Process>): (r: seq<Process>)
    ensures |r| == |s| + 1
    ensures forall j :: 0 <= j < |r| ==> r[j] == x || r[j] in s
    ensures multiset(r) == multiset(s) + multiset{x}
  {
    if s == [] then [x]
    else if ListedNoLater(x, s[0]) then [x] + s
    else
      assert s == [s[0]] + s[1..];
      [s[0]] + InsertForListing(x, s[1..])
  }

  /** Inserting into a table in listing order keeps it in listing order. */
  lemma {:induction false} InsertKeepsListingOrder(x: Process, s: seq<Process>)
    requires SortedForListing(s)
    ensures SortedForListing(InsertForListing(x, s))
  {
    if s != [] {
      var t := s[1..];
      if ListedNoLater(x, s[0]) {
        forall j | 0 <= j < |s| ensures ListedNoLater(x, s[j]) {
          ListedNoLaterTransitive(x, s[0], s[j]);
        }
      } else {
        assert SortedForListing(t);
        InsertKeepsListingOrder(x, t);
        var rest := InsertForListing(x, t);
        forall j | 0 <= j < |rest| ensures ListedNoLater(s[0], rest[j]) {
          if rest[j] != x {
            var i :| 0 <= i < |t| && t[i] == rest[j];
            assert s[i + 1] == t[i];
          }
        }
      }
    }
  }

  lemma ListedNoLaterTransitive(a: Process, b: Process, c: Process)
    requires ListedNoLater(a, b) && ListedNoLater(b, c)
    ensures ListedNoLater(a, c)
  {
  }

  /** The table in listing order: every record once, ordered by (CreatedAt, Priority, PID). */
  function SortForListing(s: seq<Process>): (r: seq<Process>)
    ensures SortedForListing(r)
    ensures multiset(r) == multiset(s)
  {
    if s == [] then []
    else
      assert s == [s[0]] + s[1..];
      var rest := SortForListing(s[1..]);
      InsertKeepsListingOrder(s[0], rest);
      InsertForListing(s[0], rest)
  }

  /** A table in creation order is already in listing order, so listing it keeps the store order. */
  lemma {:induction false} ListingKeepsCreationOrder(s: seq<Process>)
    requires StrictlyAged(s)
    ensures SortForListing(s) == s
  {
    if s != [] {
      ListingKeepsCreationOrder(s[1..]);
      if |s| > 1 {
        assert ListedNoLater(s[0], s[1..][0]);
      }
    }
  }

}
