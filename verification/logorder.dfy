/** Newest-first ordering of the history. Both the streak engine
    (`Badges.tsx`) and the history list (`LogList.tsx`) copy the logs and
    sort them with `b.date.localeCompare(a.date)`. On canonical date strings
    that comparison is day order (DateText.DateStringOrder), so the sort is
    modelled on day numbers. JavaScript's sort is stable; the insertion sort
    below also keeps same-day entries in their input order. */
module LogOrder {
  import opened Types

  predicate SortedDesc(s: seq<DailyLog>)
  {
    forall i, j :: 0 <= i < j < |s| ==> s[i].date >= s[j].date
  }

  /** Places `x` in front of the first entry that is not newer than it. */
  function Insert(x: DailyLog, s: seq<DailyLog>): (r: seq<DailyLog>)
    requires SortedDesc(s)
    ensures SortedDesc(r)
    ensures multiset(r) == multiset(s) + multiset{x}
    ensures |r| == |s| + 1
  {
    if |s| == 0 || s[0].date <= x.date then [x] + s
    else
      var t := Insert(x, s[1..]);
      assert s == [s[0]] + s[1..];
      assert forall k :: 0 <= k < |t| ==> t[k].date <= s[0].date by {
        forall k | 0 <= k < |t|
          ensures t[k].date <= s[0].date
        {
          assert t[k] in multiset(s[1..]) + multiset{x};
          if t[k] != x {
            var j :| 0 <= j < |s[1..]| && s[1..][j] == t[k];
            assert s[j + 1] == t[k];
          }
        }
      }
      [s[0]] + t
  }

  /** `[...logs].sort((a, b) => b.date.localeCompare(a.date))`. */
  function SortDesc(s: seq<DailyLog>): (r: seq<DailyLog>)
    ensures SortedDesc(r)
    ensures multiset(r) == multiset(s)
    ensures |r| == |s|
  {
    if |s| == 0 then []
    else
      assert s == [s[0]] + s[1..];
      Insert(s[0], SortDesc(s[1..]))
  }

  /** The newest day in a non-empty history. */
  function LatestDate(s: seq<DailyLog>): (d: Day)
    requires |s| > 0
    ensures exists i :: 0 <= i < |s| && s[i].date == d
    ensures forall i :: 0 <= i < |s| ==> s[i].date <= d
  {
    if |s| == 1 then s[0].date
    else
      var rest := LatestDate(s[1..]);
      if s[0].date >= rest then s[0].date else rest
  }

  /** A day that some entry carries and no entry passes is the newest day. */
  lemma LatestIsMax(s: seq<DailyLog>, k: nat)
    requires k < |s| && forall i :: 0 <= i < |s| ==> s[i].date <= s[k].date
    ensures LatestDate(s) == s[k].date
  {
    var i :| 0 <= i < |s| && s[i].date == LatestDate(s);
  }

  /** The first entry of the sorted copy carries the newest day. */
  lemma SortedHeadIsLatest(s: seq<DailyLog>)
    requires |s| > 0
    ensures SortDesc(s)[0].date == LatestDate(s)
    ensures SortDesc(s)[0] in s
  {
    var r := SortDesc(s);
    SortKeepsMembers(s);
    assert r[0] in r;
    var k :| 0 <= k < |s| && s[k] == r[0];
    forall i | 0 <= i < |s|
      ensures s[i].date <= s[k].date
    {
      assert s[i] in r;
      var j :| 0 <= j < |r| && r[j] == s[i];
    }
    LatestIsMax(s, k);
  }

  /** Sorting keeps the collection invariant. */
  lemma {:induction false} SortKeepsUniqueDates(s: seq<DailyLog>)
    requires UniqueDates(s)
    ensures UniqueDates(SortDesc(s))
  {
    if |s| > 0 {
      var t := SortDesc(s[1..]);
      SortKeepsUniqueDates(s[1..]);
      forall k | 0 <= k < |t|
        ensures t[k].date != s[0].date
      {
        assert t[k] in multiset(s[1..]);
        var j :| 0 <= j < |s[1..]| && s[1..][j] == t[k];
        assert s[j + 1] == t[k];
      }
      InsertKeepsUniqueDates(s[0], t);
    }
  }

  lemma {:induction false} InsertKeepsUniqueDates(x: DailyLog, s: seq<DailyLog>)
    requires SortedDesc(s) && UniqueDates(s)
    requires forall k :: 0 <= k < |s| ==> s[k].date != x.date
    ensures UniqueDates(Insert(x, s))
  {
    var r := Insert(x, s);
    if |s| > 0 && s[0].date > x.date {
      InsertKeepsUniqueDates(x, s[1..]);
      var t := Insert(x, s[1..]);
      forall k | 0 <= k < |t|
        ensures t[k].date != s[0].date
      {
        assert t[k] in multiset(s[1..]) + multiset{x};
        if t[k] != x {
          assert t[k] in s[1..];
        }
      }
    }
  }

  /** The sorted copy holds exactly the entries of the original. */
  lemma SortKeepsMembers(s: seq<DailyLog>)
    ensures forall l :: l in SortDesc(s) <==> l in s
  {
    var r := SortDesc(s);
    forall l
      ensures l in r <==> l in s
    {
      assert l in r <==> l in multiset(r);
      assert l in s <==> l in multiset(s);
    }
  }
}
