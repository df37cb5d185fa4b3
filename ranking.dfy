/**
 * Ordering the feed newest first, as Python's stable `sorted(..., key=time,
 * reverse=True)` does, and picking the first event of that order that passes
 * a test. Ties in `time` keep their feed order.
 */
module Ranking {
  import opened Wrappers
  import opened Quake

  predicate NewestFirst(s: seq<Event>)
  {
    forall i, j :: 0 <= i < j < |s| ==> s[i].time >= s[j].time
  }

  /** An event no older than the head of a newest-first list can go in front of it. */
  lemma ConsNewestFirst(x: Event, t: seq<Event>)
    requires NewestFirst(t) && (t == [] || x.time >= t[0].time)
    ensures NewestFirst([x] + t)
  {
    var r := [x] + t;
    forall i, j | 0 <= i < j < |r| ensures r[i].time >= r[j].time {
      if i == 0 {
        assert r[j] == t[j - 1];
      } else {
        assert r[i] == t[i - 1] && r[j] == t[j - 1];
      }
    }
  }

  /** Dropping the head keeps a list newest first. */
  lemma TailNewestFirst(s: seq<Event>)
    requires s != [] && NewestFirst(s)
    ensures NewestFirst(s[1..])
  {
    forall i, j | 0 <= i < j < |s| - 1 ensures s[1..][i].time >= s[1..][j].time {
      assert s[1..][i] == s[i + 1] && s[1..][j] == s[j + 1];
    }
  }

  /** Puts `e` before the first event that is not newer than it. */
  function InsertNewestFirst(e: Event, s: seq<Event>): (r: seq<Event>)
    ensures multiset(r) == multiset(s) + multiset{e}
    ensures |r| == |s| + 1 && (r[0] == e || (s != [] && r[0] == s[0]))
  {
    if s == [] || e.time >= s[0].time then
      [e] + s
    else
      var rest := InsertNewestFirst(e, s[1..]);
      assert multiset([s[0]] + rest) == multiset{s[0]} + multiset(rest);
      assert multiset(s) == multiset{s[0]} + multiset(s[1..]) by {
        assert s == [s[0]] + s[1..];
      }
      [s[0]] + rest
  }

  /** Inserting into a newest-first list keeps it newest first. */
  lemma {:induction false} InsertKeepsNewestFirst(e: Event, s: seq<Event>)
    requires NewestFirst(s)
    ensures NewestFirst(InsertNewestFirst(e, s))
  {
    if s == [] || e.time >= s[0].time {
      ConsNewestFirst(e, s);
    } else {
      TailNewestFirst(s);
      InsertKeepsNewestFirst(e, s[1..]);
      ConsNewestFirst(s[0], InsertNewestFirst(e, s[1..]));
    }
  }

  /**
   * A stable sort by descending time: each event is inserted ahead of the
   * later feed entries that share its time.
   */
  function SortNewestFirst(s: seq<Event>): (r: seq<Event>)
    ensures multiset(r) == multiset(s)
    ensures NewestFirst(r)
  {
    if s == [] then []
    else
      assert s == [s[0]] + s[1..];
      InsertKeepsNewestFirst(s[0], SortNewestFirst(s[1..]));
      InsertNewestFirst(s[0], SortNewestFirst(s[1..]))
  }

  /** The events of `s` whose time is `t`, in their order in `s`. */
  function WithTime(s: seq<Event>, t: int): seq<Event>
  {
    if s == [] then []
    else if s[0].time == t then [s[0]] + WithTime(s[1..], t)
    else WithTime(s[1..], t)
  }

  /**
   * Insertion puts `e` ahead of the events sharing its time: the events it
   * passes over are strictly newer.
   */
  lemma {:induction false} InsertWithTime(e: Event, s: seq<Event>, t: int)
    ensures WithTime(InsertNewestFirst(e, s), t) ==
      if e.time == t then [e] + WithTime(s, t) else WithTime(s, t)
  {
    if s == [] || e.time >= s[0].time {
      assert InsertNewestFirst(e, s)[1..] == s;
    } else {
      assert InsertNewestFirst(e, s)[1..] == InsertNewestFirst(e, s[1..]);
      InsertWithTime(e, s[1..], t);
    }
  }

  /**
   * The sort is stable: for every time, the events with that time come out in
   * the order they had in the feed.
   */
  lemma {:induction false} SortIsStable(s: seq<Event>, t: int)
    ensures WithTime(SortNewestFirst(s), t) == WithTime(s, t)
  {
    if s != [] {
      SortIsStable(s[1..], t);
      InsertWithTime(s[0], SortNewestFirst(s[1..]), t);
    }
  }

  /** `s[i]` passes `p` and no event before it does. */
  predicate IsFirstAt(s: seq<Event>, p: Event -> bool, i: int)
  {
    0 <= i < |s| && p(s[i]) && forall j :: 0 <= j < i ==> !p(s[j])
  }

  /** The first event of `s`, in order, that passes `p`. */
  function FirstWhere(s: seq<Event>, p: Event -> bool): (r: Option<Event>)
    ensures r.Some? ==> r.value in s && p(r.value)
    ensures r.Some? ==> exists i :: IsFirstAt(s, p, i) && s[i] == r.value
    ensures r.None? <==> forall i :: 0 <= i < |s| ==> !p(s[i])
  {
    if s == [] then None
    else if p(s[0]) then
      assert IsFirstAt(s, p, 0);
      Some(s[0])
    else
      var r := FirstWhere(s[1..], p);
      if r.Some? then
        var i :| IsFirstAt(s[1..], p, i) && s[1..][i] == r.value;
        assert IsFirstAt(s, p, i + 1) by {
          assert forall j :: 1 <= j < |s| ==> s[j] == s[1..][j - 1];
        }
        r
      else r
  }

  /** Scanning from position `i`: a passing event there is found, a failing one is skipped. */
  lemma FirstWhereFrom(s: seq<Event>, i: nat, p: Event -> bool)
    requires i < |s|
    ensures FirstWhere(s[i..], p) == if p(s[i]) then Some(s[i]) else FirstWhere(s[i + 1..], p)
  {
    assert s[i..][1..] == s[i + 1..];
  }

  /**
   * Scanning after an insertion: `e` is found first exactly when it passes and
   * no passing event of `s` is strictly newer.
   */
  lemma {:induction false} FirstWhereInsert(e: Event, s: seq<Event>, p: Event -> bool)
    requires NewestFirst(s)
    ensures FirstWhere(InsertNewestFirst(e, s), p) ==
      if p(e) && (FirstWhere(s, p).None? || FirstWhere(s, p).value.time <= e.time)
      then Some(e) else FirstWhere(s, p)
  {
    if s == [] || e.time >= s[0].time {
      assert InsertNewestFirst(e, s)[1..] == s;
    } else {
      var rest := InsertNewestFirst(e, s[1..]);
      assert InsertNewestFirst(e, s)[1..] == rest;
      FirstWhereInsert(e, s[1..], p);
    }
  }

  /**
   * `s[i]` passes `p`, no passing event of `s` is newer, and every passing
   * event before it in `s` is strictly older.
   */
  predicate IsNewestAt(s: seq<Event>, p: Event -> bool, i: int)
  {
    && 0 <= i < |s|
    && p(s[i])
    && (forall j :: 0 <= j < |s| && p(s[j]) ==> s[j].time <= s[i].time)
    && (forall j :: 0 <= j < i && p(s[j]) ==> s[j].time < s[i].time)
  }

  lemma NewestAtHead(s: seq<Event>, p: Event -> bool)
    requires s != [] && p(s[0])
    requires forall j :: 1 <= j < |s| && p(s[j]) ==> s[j].time <= s[0].time
    ensures IsNewestAt(s, p, 0)
  {
  }

  lemma NewestInTail(s: seq<Event>, p: Event -> bool, i: int)
    requires s != [] && IsNewestAt(s[1..], p, i)
    requires p(s[0]) ==> s[0].time < s[1..][i].time
    ensures IsNewestAt(s, p, i + 1)
  {
    assert forall j :: 1 <= j < |s| ==> s[j] == s[1..][j - 1];
  }

  /** Sorting loses no event: some event passes the scan exactly when one of the feed passes. */
  lemma SelectsNoneExactly(s: seq<Event>, p: Event -> bool)
    ensures FirstWhere(SortNewestFirst(s), p).None? <==> forall j :: 0 <= j < |s| ==> !p(s[j])
  {
    var sorted := SortNewestFirst(s);
    assert forall x :: x in sorted <==> x in s by {
      assert forall x :: x in sorted <==> x in multiset(sorted);
      assert forall x :: x in s <==> x in multiset(s);
    }
    if FirstWhere(sorted, p).None? {
      forall j | 0 <= j < |s| ensures !p(s[j]) {
        assert s[j] in sorted;
      }
    }
  }

  /** One insertion step of the selection theorem, stated on plain values. */
  lemma SelectStep(x: Event, tail: seq<Event>, p: Event -> bool, found: Option<Event>)
    requires found.None? ==> forall j :: 0 <= j < |tail| ==> !p(tail[j])
    requires found.Some? ==> exists i :: IsNewestAt(tail, p, i) && tail[i] == found.value
    ensures p(x) && (found.None? || found.value.time <= x.time) ==> IsNewestAt([x] + tail, p, 0)
    ensures !(p(x) && (found.None? || found.value.time <= x.time)) && found.Some? ==>
      exists i :: IsNewestAt([x] + tail, p, i) && ([x] + tail)[i] == found.value
  {
    var s := [x] + tail;
    assert s[1..] == tail;
    if p(x) && (found.None? || found.value.time <= x.time) {
      if found.Some? {
        var i' :| IsNewestAt(tail, p, i') && tail[i'] == found.value;
      }
      NewestAtHead(s, p);
    } else if found.Some? {
      var i' :| IsNewestAt(tail, p, i') && tail[i'] == found.value;
      NewestInTail(s, p, i');
      assert s[i' + 1] == found.value;
    }
  }

  /**
   * The first passing event of the newest-first order is the passing event
   * with the largest time and, among those with that time, the earliest in
   * feed order.
   */
  lemma {:induction false} SelectsNewest(s: seq<Event>, p: Event -> bool)
    ensures FirstWhere(SortNewestFirst(s), p).Some? ==>
      exists i :: IsNewestAt(s, p, i) && s[i] == FirstWhere(SortNewestFirst(s), p).value
  {
    if s != [] {
      var tail := s[1..];
      assert s == [s[0]] + tail;
      SelectsNewest(tail, p);
      SelectsNoneExactly(tail, p);
      FirstWhereInsert(s[0], SortNewestFirst(tail), p);
      SelectStep(s[0], tail, p, FirstWhere(SortNewestFirst(tail), p));
    }
  }
}
