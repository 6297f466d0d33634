/** The proxy's session table: sessions expire, and the oldest make room for new ones
    (crates/proxy/src/ext.rs:18-20, 58-72). */
module ProxySessions {
  const MAX_SESSIONS := 48
  const SESSION_TTL_SECS := 3 * 60 * 60

  /** Sessions by id, each with its time of creation in milliseconds. */
  type Sessions = map<string, nat>

  predicate Fresh(created: nat, now: nat) { created > now || (now - created) / 1000 < SESSION_TTL_SECS }

  function Retained(s: Sessions, now: nat): Sessions { map id | id in s && Fresh(s[id], now) :: s[id] }

  /** Retained is what was created less than three hours ago. */
  lemma FreshIff(s: Sessions, now: nat, id: string)
    ensures id in Retained(s, now) <==> id in s && now < s[id] + 10_800_000
    ensures id in Retained(s, now) ==> Retained(s, now)[id] == s[id]
  {
  }

  /** All ids, the oldest session's first; sessions of one moment may come in any order. */
  ghost predicate OldestFirst(s: Sessions, ids: seq<string>) {
    && (forall id :: id in ids <==> id in s)
    && (forall i, j :: 0 <= i < j < |ids| ==> ids[i] != ids[j] && ids[i] in s && ids[j] in s && s[ids[i]] <= s[ids[j]])
  }

  method SortedByAge(s: Sessions) returns (ids: seq<string>)
    ensures OldestFirst(s, ids) && |ids| == |s|
  {
    ids := [];
    var left := s.Keys;
    while left != {}
      invariant left <= s.Keys
      invariant forall id :: id in ids <==> id in s.Keys - left
      invariant forall i, j :: 0 <= i < j < |ids| ==> ids[i] != ids[j] && ids[i] in s && ids[j] in s && s[ids[i]] <= s[ids[j]]
      invariant forall x, y | x in ids && y in left :: s[x] <= s[y]
      invariant |ids| + |left| == |s.Keys|
      decreases left
    {
      var oldest := OldestOf(s, left);
      assert forall i :: 0 <= i < |ids| ==> ids[i] in ids;
      assert |left - {oldest}| == |left| - 1;
      ids := ids + [oldest];
      left := left - {oldest};
    }
    assert |s| == |s.Keys|;
  }

  method OldestOf(s: Sessions, ids: set<string>) returns (oldest: string)
    requires ids != {} && ids <= s.Keys
    ensures oldest in ids && forall id <- ids :: s[oldest] <= s[id]
  {
    oldest :| oldest in ids;
    var left := ids - {oldest};
    while left != {}
      invariant left <= ids && oldest in ids
      invariant forall id <- ids - left :: s[oldest] <= s[id]
      decreases left
    {
      var id :| id in left;
      left := left - {id};
      if s[id] < s[oldest] {
        oldest := id;
      }
    }
  }

  /** What eviction leaves: the fresh sessions, or the 47 newest of them. */
  ghost predicate Evicted(s: Sessions, now: nat, left: Sessions) {
    var fresh' := Retained(s, now);
    && left.Keys <= fresh'.Keys && (forall id <- left :: left[id] == fresh'[id])
    && |left| == (if |fresh'| < 48 then |fresh'| else 47)
    && forall x, y | x in left && y in fresh'.Keys - left.Keys :: fresh'[y] <= fresh'[x]
  }

  class SessionTable {
    var sessions: Sessions

    method EvictStale(now: nat)
      modifies this
      ensures Evicted(old(sessions), now, sessions)
    {
      hide Fresh, Firsts, OldestFirst, Evicted, Retained;
      var kept := Retained(sessions, now);
      if |kept| < MAX_SESSIONS {
        FewAreKept(sessions, now);
        sessions := kept;
        return;
      }
      var ids := SortedByAge(kept);
      var left := DropFirst(kept, ids, |kept| + 1 - MAX_SESSIONS);
      OldestAreDropped(sessions, now, ids, left);
      sessions := left;
    }

    /** Inserting after eviction never lets the table exceed its limit. */
    method Insert(id: string, now: nat)
      modifies this
      ensures id in sessions && |sessions| <= 48
      ensures exists left :: Evicted(old(sessions), now, left) && sessions == left[id := now]
    {
      EvictStale(now);
      ghost var left := sessions;
      sessions := sessions[id := now];
      assert sessions.Keys == left.Keys + {id} && |sessions| == |sessions.Keys| && |left| == |left.Keys|;
    }
  }

  function Firsts(ids: seq<string>, n: nat): set<string>
    requires n <= |ids|
  {
    if n == 0 then {} else Firsts(ids, n - 1) + {ids[n - 1]}
  }

  method DropFirst(s: Sessions, ids: seq<string>, n: nat) returns (left: Sessions)
    requires n <= |ids|
    ensures left == s - Firsts(ids, n)
  {
    hide Firsts;
    left := s;
    NoneRemoved(s, ids);
    for i := 0 to n
      invariant left == s - Firsts(ids, i)
    {
      OneMoreRemoved(s, ids, i);
      left := left - {ids[i]};
    }
  }

  lemma FewAreKept(s: Sessions, now: nat)
    requires |Retained(s, now)| < MAX_SESSIONS
    ensures Evicted(s, now, Retained(s, now))
  {
    hide Retained;
  }

  lemma OldestAreDropped(s: Sessions, now: nat, ids: seq<string>, left: Sessions)
    requires |Retained(s, now)| >= MAX_SESSIONS && OldestFirst(Retained(s, now), ids) && |ids| == |Retained(s, now)|
    requires left == Retained(s, now) - Firsts(ids, |ids| + 1 - MAX_SESSIONS)
    ensures Evicted(s, now, left)
  {
    hide Retained, Firsts, OldestFirst;
    DroppedAreOldest(Retained(s, now), ids, |ids| + 1 - MAX_SESSIONS);
  }

  lemma NoneRemoved(s: Sessions, ids: seq<string>)
    ensures s - Firsts(ids, 0) == s
  {
  }

  lemma OneMoreRemoved(s: Sessions, ids: seq<string>, i: nat)
    requires i < |ids|
    ensures s - Firsts(ids, i) - {ids[i]} == s - Firsts(ids, i + 1)
  {
    hide Firsts;
    assert Firsts(ids, i + 1) == Firsts(ids, i) + {ids[i]} by { NextFirst(ids, i); }
  }

  lemma NextFirst(ids: seq<string>, i: nat)
    requires i < |ids|
    ensures Firsts(ids, i + 1) == Firsts(ids, i) + {ids[i]}
  {
  }

  lemma DroppedAreOldest(s: Sessions, ids: seq<string>, n: nat)
    requires OldestFirst(s, ids) && |ids| == |s| && n <= |ids|
    ensures var left := s - Firsts(ids, n);
      |left| == |s| - n && forall x, y | x in left && y in s.Keys - left.Keys :: s[y] <= s[x]
  {
    hide Firsts, OldestFirst;
    var dropped := Firsts(ids, n);
    var left := s - dropped;
    FirstsAreIn(s, ids, n);
    assert left.Keys == s.Keys - dropped && |left| == |left.Keys| && |s| == |s.Keys|;
    forall x, y | x in left && y in s.Keys - left.Keys ensures s[y] <= s[x] {
      DroppedIsOlder(s, ids, n, x, y);
    }
  }

  lemma FirstsAreIn(s: Sessions, ids: seq<string>, n: nat)
    requires OldestFirst(s, ids) && n <= |ids|
    ensures |Firsts(ids, n)| == n && Firsts(ids, n) <= s.Keys
  {
    hide Firsts, OldestFirst;
    EachOnce(s, ids);
    FirstsAre(ids, n);
    assert forall i :: 0 <= i < n ==> ids[i] in ids;
  }

  lemma DroppedIsOlder(s: Sessions, ids: seq<string>, n: nat, x: string, y: string)
    requires OldestFirst(s, ids) && n <= |ids| && x in s && x !in Firsts(ids, n) && y in Firsts(ids, n)
    ensures y in s && s[y] <= s[x]
  {
    hide Firsts, OldestFirst;
    EachOnce(s, ids);
    FirstsAre(ids, n);
    var i :| 0 <= i < |ids| && ids[i] == x;
    var j :| 0 <= j < n && ids[j] == y;
    OlderFirst(s, ids, j, i);
  }

  lemma EachOnce(s: Sessions, ids: seq<string>)
    requires OldestFirst(s, ids)
    ensures forall i, j :: 0 <= i < j < |ids| ==> ids[i] != ids[j]
    ensures forall id :: id in ids <==> id in s
  {
  }

  lemma OlderFirst(s: Sessions, ids: seq<string>, i: nat, j: nat)
    requires OldestFirst(s, ids) && i < j < |ids|
    ensures ids[i] in s && ids[j] in s && s[ids[i]] <= s[ids[j]]
  {
  }

  lemma {:induction false} FirstsAre(ids: seq<string>, n: nat)
    requires n <= |ids| && forall i, j :: 0 <= i < j < |ids| ==> ids[i] != ids[j]
    ensures |Firsts(ids, n)| == n && forall id :: id in Firsts(ids, n) <==> exists i :: 0 <= i < n && ids[i] == id
  {
    if n > 0 {
      FirstsAre(ids, n - 1);
      OneMoreFirst(ids, n, Firsts(ids, n - 1), Firsts(ids, n));
    }
  }

  lemma OneMoreFirst(ids: seq<string>, n: nat, before: set<string>, after: set<string>)
    requires 0 < n <= |ids| && (forall i, j :: 0 <= i < j < |ids| ==> ids[i] != ids[j])
    requires |before| == n - 1 && forall id :: id in before <==> exists i :: 0 <= i < n - 1 && ids[i] == id
    requires after == before + {ids[n - 1]}
    ensures |after| == n && forall id :: id in after <==> exists i :: 0 <= i < n && ids[i] == id
  {
    assert ids[n - 1] !in before;
    forall id ensures id in after <==> exists i :: 0 <= i < n && ids[i] == id {
      if id in before {
        var i :| 0 <= i < n - 1 && ids[i] == id;
      } else if id in after {
        assert ids[n - 1] == id;
      }
    }
  }
}
