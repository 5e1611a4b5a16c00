/**
 * How long the managed reconciliation job can go without running.
 * Models getMaximumMinuteGap and the acceptance test of getManagedReconciliationCron
 * (apps/sdp-api/src/job.ts).
 */
module CronGap {
  import opened Sequences
  import opened Wrappers

  const MAX_MANAGED_SCHEDULER_GAP_MINUTES := 5

  // ------------------------------------------------------------- sorting

  function Insert(x: int, s: seq<int>): seq<int> {
    if s == [] || x <= s[0] then [x] + s else [s[0]] + Insert(x, s[1..])
  }

  function Sorted(s: seq<int>): seq<int> {
    if s == [] then [] else Insert(s[0], Sorted(s[1..]))
  }

  ghost predicate Ascending(s: seq<int>) {
    forall i, j :: 0 <= i < j < |s| ==> s[i] <= s[j]
  }

  lemma {:induction false} InsertMembers(x: int, s: seq<int>)
    ensures multiset(Insert(x, s)) == multiset(s) + multiset{x}
  {
    if s != [] && x > s[0] {
      InsertMembers(x, s[1..]);
      assert s == [s[0]] + s[1..];
    }
  }

  lemma AscendingCons(x: int, s: seq<int>)
    requires Ascending(s) && forall y :: y in s ==> x <= y
    ensures Ascending([x] + s)
  {
    var r := [x] + s;
    forall i, j | 0 <= i < j < |r| ensures r[i] <= r[j] {
      assert r[j] == s[j - 1] && s[j - 1] in s;
    }
  }

  lemma {:induction false} InsertOrders(x: int, s: seq<int>)
    requires Ascending(s)
    ensures Ascending(Insert(x, s))
  {
    if s != [] && x > s[0] {
      InsertOrders(x, s[1..]);
      InsertMembers(x, s[1..]);
      var r := Insert(x, s[1..]);
      forall y | y in r ensures s[0] <= y {
        assert y in multiset(r);
      }
      AscendingCons(s[0], r);
    } else {
      AscendingCons(x, s);
    }
  }

  lemma {:induction false} SortedOrders(s: seq<int>)
    ensures Ascending(Sorted(s)) && multiset(Sorted(s)) == multiset(s)
  {
    if s != [] {
      SortedOrders(s[1..]);
      InsertOrders(s[0], Sorted(s[1..]));
      InsertMembers(s[0], Sorted(s[1..]));
      assert s == [s[0]] + s[1..];
    }
  }

  lemma {:induction false} SortedMembers(s: seq<int>)
    ensures |Sorted(s)| == |s| && forall x :: x in Sorted(s) <==> x in s
  {
    SortedOrders(s);
    assert |multiset(Sorted(s))| == |Sorted(s)|;
    forall x ensures x in Sorted(s) <==> x in s {
      assert x in Sorted(s) <==> x in multiset(Sorted(s));
    }
  }

  lemma {:induction false} DistinctIsCounted(s: seq<int>)
    ensures Distinct(s) <==> forall x :: x in s ==> multiset(s)[x] <= 1
  {
    if s != [] {
      var rest := s[1..];
      DistinctIsCounted(rest);
      assert s == [s[0]] + rest;
      assert Distinct(s) <==> Distinct(rest) && s[0] !in rest;
      forall x ensures multiset(s)[x] == multiset(rest)[x] + if x == s[0] then 1 else 0 {
        assert multiset(s) == multiset{s[0]} + multiset(rest);
      }
      assert s[0] in rest <==> multiset(rest)[s[0]] > 0;
      assert forall x :: x in s <==> x == s[0] || x in rest;
    }
  }

  lemma {:induction false} SortedDistinct(s: seq<int>)
    ensures Distinct(Sorted(s)) <==> Distinct(s)
  {
    SortedOrders(s);
    SortedMembers(s);
    DistinctIsCounted(s);
    DistinctIsCounted(Sorted(s));
  }

  // ------------------------------------------------------------- the gap

  function Gap(minute: int, next: int): int {
    if next > minute then next - minute else next + 60 - minute
  }

  function GapAfter(sorted: seq<int>, i: nat): int
    requires i < |sorted|
  {
    Gap(sorted[i], sorted[(i + 1) % |sorted|])
  }

  /** The largest of the first `n` gaps. */
  function LargestGap(sorted: seq<int>, n: nat): int
    requires 0 < n <= |sorted|
  {
    if n == 1 then GapAfter(sorted, 0)
    else if GapAfter(sorted, n - 1) > LargestGap(sorted, n - 1) then GapAfter(sorted, n - 1)
    else LargestGap(sorted, n - 1)
  }

  /** None stands for the infinite gap of a list without minutes. */
  function GetMaximumMinuteGap(minutes: seq<int>): Option<int> {
    SortedMembers(minutes);
    if minutes == [] then None else Some(LargestGap(Sorted(minutes), |minutes|))
  }

  lemma {:induction false} LargestGapIsLargest(sorted: seq<int>, n: nat)
    requires 0 < n <= |sorted|
    ensures forall i: nat :: i < n ==> GapAfter(sorted, i) <= LargestGap(sorted, n)
    ensures exists i: nat :: i < n && GapAfter(sorted, i) == LargestGap(sorted, n)
  {
    if n == 1 {
      assert GapAfter(sorted, 0) == LargestGap(sorted, 1);
    } else {
      LargestGapIsLargest(sorted, n - 1);
      assert GapAfter(sorted, n - 1) <= LargestGap(sorted, n);
      var i: nat :| i < n - 1 && GapAfter(sorted, i) == LargestGap(sorted, n - 1);
      assert GapAfter(sorted, i) == LargestGap(sorted, n) || GapAfter(sorted, n - 1) == LargestGap(sorted, n);
    }
  }

  // ---------------------------------------------------- windows of time

  /** Minute `t` of unbounded time is one at which the schedule's minute list fires. */
  predicate Fires(minutes: seq<int>, t: int) {
    t % 60 in minutes
  }

  ghost predicate Hit(minutes: seq<int>, w: int, n: nat) {
    exists t :: w <= t < w + n && Fires(minutes, t)
  }

  /** Every `n` consecutive minutes contain one that fires. */
  ghost predicate Covers(minutes: seq<int>, n: nat) {
    forall w :: Hit(minutes, w, n)
  }

  ghost predicate IsLeastCover(minutes: seq<int>, n: int) {
    forall k: nat :: Covers(minutes, k) <==> n <= k
  }

  ghost predicate OnTheHour(minutes: seq<int>) {
    forall x :: x in minutes ==> 0 <= x < 60
  }

  ghost predicate AllEqual(minutes: seq<int>) {
    forall x, y :: x in minutes && y in minutes ==> x == y
  }

  lemma Coverage(a: seq<int>, b: seq<int>, n: nat)
    requires forall x :: x in a <==> x in b
    ensures Covers(a, n) ==> Covers(b, n)
  {
    if Covers(a, n) {
      forall w ensures Hit(b, w, n) {
        assert Hit(a, w, n);
        var t :| w <= t < w + n && Fires(a, t);
        assert Fires(b, t);
      }
    }
  }

  lemma HitFrom(minutes: seq<int>, w: int, n: nat, x: int)
    requires x in minutes && 0 <= x < 60
    requires if x >= w % 60 then x - w % 60 < n else x + 60 - w % 60 < n
    ensures Hit(minutes, w, n)
  {
    var t := if x >= w % 60 then w - w % 60 + x else w - w % 60 + x + 60;
    assert t % 60 == x;
    assert Fires(minutes, t);
  }

  /** After the last minute of the hour comes the first one. */
  lemma GapAfterIs(s: seq<int>, i: nat)
    requires i < |s|
    ensures GapAfter(s, i) == Gap(s[i], if i + 1 < |s| then s[i + 1] else s[0])
  {
    assert i + 1 < |s| ==> (i + 1) % |s| == i + 1;
    assert i + 1 == |s| ==> (i + 1) % |s| == 0;
  }

  lemma Wrap(t: int)
    ensures 0 <= t < 60 ==> t % 60 == t
    ensures 60 <= t < 120 ==> t % 60 == t - 60
  {
  }

  /** The first minute of an ascending list that is at least `r`, or its length. */
  function FirstFrom(s: seq<int>, r: int): (i: nat)
    ensures i <= |s| && (i < |s| ==> s[i] >= r) && forall k :: 0 <= k < i ==> s[k] < r
  {
    if s == [] || s[0] >= r then 0 else FirstFrom(s[1..], r) + 1
  }

  lemma HitInside(s: seq<int>, w: int, g: nat, i: nat)
    requires 0 < i < |s| && OnTheHour(s) && s[i - 1] < w % 60 <= s[i] && GapAfter(s, i - 1) <= g
    ensures Hit(s, w, g)
  {
    GapAfterIs(s, i - 1);
    assert s[i] in s;
    HitFrom(s, w, g, s[i]);
  }

  lemma EveryWindowIsHit(s: seq<int>, w: int, g: nat)
    requires s != [] && Ascending(s) && OnTheHour(s)
    requires forall i: nat :: i < |s| ==> GapAfter(s, i) <= g
    ensures Hit(s, w, g)
  {
    var r := w % 60;
    var i := FirstFrom(s, r);
    var n := |s|;
    assert s[0] in s && s[n - 1] in s && s[0] <= s[n - 1];
    GapAfterIs(s, n - 1);
    assert GapAfter(s, n - 1) <= g;
    if 0 < i < n {
      HitInside(s, w, g, i);
    } else {
      HitFrom(s, w, g, s[0]);
    }
  }

  /** Between one firing minute and the next nothing fires, so a shorter window fits in there. */
  lemma GapIsMissed(s: seq<int>, i: nat, n: nat)
    requires i < |s| && Ascending(s) && Distinct(s) && OnTheHour(s) && n < GapAfter(s, i)
    ensures !Hit(s, s[i] + 1, n)
  {
    GapAfterIs(s, i);
    assert s[i] in s && s[0] in s;
    forall t | s[i] + 1 <= t < s[i] + 1 + n ensures !Fires(s, t) {
      Wrap(t);
      if i + 1 < |s| {
        assert s[i + 1] in s;
        NothingBetween(s, i, t);
      } else {
        NothingBeyond(s, t);
      }
    }
  }

  lemma NothingBetween(s: seq<int>, i: nat, x: int)
    requires i + 1 < |s| && Ascending(s) && s[i] < x < s[i + 1]
    ensures x !in s
  {
    forall j | 0 <= j < |s| ensures s[j] != x {
      assert if j <= i then s[j] <= s[i] else s[j] >= s[i + 1];
    }
  }

  lemma NothingBeyond(s: seq<int>, t: int)
    requires s != [] && Ascending(s) && OnTheHour(s) && s[|s| - 1] < t < s[0] + 60
    ensures t % 60 !in s
  {
    assert s[0] in s && s[|s| - 1] in s;
    Wrap(t);
    forall j | 0 <= j < |s| ensures s[j] != t % 60 {
      assert s[0] <= s[j] <= s[|s| - 1];
    }
  }

  lemma GapBounds(s: seq<int>, i: nat)
    requires i < |s| && OnTheHour(s)
    ensures 1 <= GapAfter(s, i) <= 60
    ensures s[i] == s[(i + 1) % |s|] ==> GapAfter(s, i) == 60
  {
    assert s[i] in s && s[(i + 1) % |s|] in s;
  }

  lemma {:induction false} SortedGapCovers(s: seq<int>)
    requires s != [] && Ascending(s) && OnTheHour(s)
    ensures 1 <= LargestGap(s, |s|) <= 60
    ensures forall k: nat :: k >= LargestGap(s, |s|) ==> Covers(s, k)
  {
    LargestGapIsLargest(s, |s|);
    forall i: nat | i < |s| ensures 1 <= GapAfter(s, i) <= 60 {
      GapBounds(s, i);
    }
    forall k: nat | k >= LargestGap(s, |s|) ensures Covers(s, k) {
      forall w ensures Hit(s, w, k) {
        EveryWindowIsHit(s, w, k);
      }
    }
  }

  /** The reported gap is always a sound bound: no window that long goes without a run. */
  lemma GapCovers(minutes: seq<int>)
    requires minutes != [] && OnTheHour(minutes)
    ensures var g := GetMaximumMinuteGap(minutes).value;
            1 <= g <= 60 && forall k: nat :: g <= k ==> Covers(minutes, k)
  {
    var s := Sorted(minutes);
    SortedOrders(minutes);
    SortedMembers(minutes);
    SortedGapCovers(s);
    forall k: nat | LargestGap(s, |s|) <= k ensures Covers(minutes, k) {
      Coverage(s, minutes, k);
    }
  }

  lemma DistinctIsTight(minutes: seq<int>)
    requires minutes != [] && OnTheHour(minutes) && Distinct(minutes)
    ensures IsLeastCover(minutes, GetMaximumMinuteGap(minutes).value)
  {
    var s := Sorted(minutes);
    SortedOrders(minutes);
    SortedMembers(minutes);
    SortedDistinct(minutes);
    GapCovers(minutes);
    LargestGapIsLargest(s, |s|);
    var i: nat :| i < |s| && GapAfter(s, i) == LargestGap(s, |s|);
    forall k: nat | k < LargestGap(s, |s|) ensures !Covers(minutes, k) {
      GapIsMissed(s, i, k);
      assert !Hit(s, s[i] + 1, k);
      Coverage(minutes, s, k);
    }
  }

  lemma RepeatedGap(s: seq<int>, i: nat, j: nat)
    requires i < j < |s| && Ascending(s) && OnTheHour(s) && s[i] == s[j]
    ensures GapAfter(s, i) == 60
  {
    assert s[i] <= s[i + 1] <= s[j];
    GapAfterIs(s, i);
  }

  /** A repeated minute is read as a gap of a whole hour. */
  lemma RepeatedMinuteReadsSixty(minutes: seq<int>)
    requires OnTheHour(minutes) && !Distinct(minutes)
    ensures minutes != [] && GetMaximumMinuteGap(minutes) == Some(60)
  {
    var s := Sorted(minutes);
    SortedOrders(minutes);
    SortedMembers(minutes);
    SortedDistinct(minutes);
    SortedGapCovers(s);
    var i: nat, j: nat :| i < j < |s| && s[i] == s[j];
    RepeatedGap(s, i, j);
    LargestGapIsLargest(s, |s|);
  }

  /** Two different minutes: a window one short of an hour misses at most one of them. */
  lemma TwoMinutesCover59(minutes: seq<int>, x: int, y: int)
    requires OnTheHour(minutes) && x in minutes && y in minutes && x != y
    ensures Covers(minutes, 59)
  {
    forall w ensures Hit(minutes, w, 59) {
      var missed := (w + 59) % 60;
      HitFrom(minutes, w, 59, if x != missed then x else y);
    }
  }

  lemma OneMinuteNeedsSixty(minutes: seq<int>)
    requires minutes != [] && OnTheHour(minutes) && AllEqual(minutes)
    ensures forall k: nat :: k < 60 ==> !Covers(minutes, k)
  {
    var x := minutes[0];
    forall k: nat | k < 60 ensures !Covers(minutes, k) {
      forall t | x + 1 <= t < x + 1 + k ensures !Fires(minutes, t) {
        Wrap(t);
        assert x in minutes;
        assert t % 60 != x;
      }
      assert !Hit(minutes, x + 1, k);
    }
  }

  /**
   * The reported gap is the least number of minutes within which a run is certain, exactly when no
   * minute is repeated or there is only one minute; otherwise it overstates the wait.
   */
  lemma GapIsLeastExactlyWhen(minutes: seq<int>)
    requires minutes != [] && OnTheHour(minutes)
    ensures IsLeastCover(minutes, GetMaximumMinuteGap(minutes).value)
            <==> Distinct(minutes) || AllEqual(minutes)
  {
    if Distinct(minutes) {
      DistinctIsTight(minutes);
    } else {
      RepeatedMinuteReadsSixty(minutes);
      GapCovers(minutes);
      if AllEqual(minutes) {
        OneMinuteNeedsSixty(minutes);
      } else {
        var x, y :| x in minutes && y in minutes && x != y;
        TwoMinutesCover59(minutes, x, y);
      }
    }
  }

  // ---------------------------------------------------------- acceptance

  datatype Schedule = Schedule(minute: seq<int>, hour: seq<int>,
    dayOfMonth: seq<int>, month: seq<int>, dayOfWeek: seq<int>)

  /** What each numbered day of unbounded time is called. */
  datatype Calendar = Calendar(dayOfMonth: int -> int, month: int -> int, dayOfWeek: int -> int)

  predicate Accepts(s: Schedule) {
    && GetMaximumMinuteGap(s.minute).Some?
    && GetMaximumMinuteGap(s.minute).value <= MAX_MANAGED_SCHEDULER_GAP_MINUTES
    && |s.hour| == 24
    && |s.dayOfMonth| == 31
    && |s.month| == 12
    && |s.dayOfWeek| == 7
  }

  /** Values from `lo` up to `lo + n - 1`, in any order and any number of times. */
  ghost predicate InRange(s: seq<int>, lo: int, n: nat) {
    forall x :: x in s ==> lo <= x < lo + n
  }

  ghost predicate Full(s: seq<int>, lo: int, n: nat) {
    forall x :: lo <= x < lo + n ==> x in s
  }

  /** The lists hold values of their fields, as the cron parser returns. */
  ghost predicate Parsed(s: Schedule) {
    && InRange(s.minute, 0, 60)
    && InRange(s.hour, 0, 24)
    && InRange(s.dayOfMonth, 1, 31)
    && InRange(s.month, 1, 12)
    && InRange(s.dayOfWeek, 0, 7)
  }

  /** Every hour and every day of every kind is listed. */
  ghost predicate EveryHourAndDay(s: Schedule) {
    && Full(s.hour, 0, 24)
    && Full(s.dayOfMonth, 1, 31)
    && Full(s.month, 1, 12)
    && Full(s.dayOfWeek, 0, 7)
  }

  ghost predicate NoHourOrDayRepeated(s: Schedule) {
    Distinct(s.hour) && Distinct(s.dayOfMonth) && Distinct(s.month) && Distinct(s.dayOfWeek)
  }

  ghost predicate Occurs(name: int -> int, x: int) {
    exists d :: name(d) == x
  }

  /** Only proper names are used, and each of them is the name of some day. */
  ghost predicate Proper(c: Calendar) {
    && (forall d :: 1 <= c.dayOfMonth(d) <= 31 && 1 <= c.month(d) <= 12 && 0 <= c.dayOfWeek(d) <= 6)
    && (forall x :: 1 <= x <= 31 ==> Occurs(c.dayOfMonth, x))
    && (forall x :: 1 <= x <= 12 ==> Occurs(c.month, x))
    && (forall x :: 0 <= x <= 6 ==> Occurs(c.dayOfWeek, x))
  }

  predicate DayRuns(s: Schedule, c: Calendar, d: int) {
    c.dayOfMonth(d) in s.dayOfMonth && c.month(d) in s.month && c.dayOfWeek(d) in s.dayOfWeek
  }

  predicate Runs(s: Schedule, c: Calendar, t: int) {
    Fires(s.minute, t) && (t / 60) % 24 in s.hour && DayRuns(s, c, t / 1440)
  }

  ghost predicate RunsWithin(s: Schedule, c: Calendar, w: int, n: nat) {
    exists t :: w <= t < w + n && Runs(s, c, t)
  }

  function Range(lo: int, n: nat): (r: set<int>)
    ensures |r| == n && forall x :: x in r <==> lo <= x < lo + n
  {
    if n == 0 then {} else Range(lo, n - 1) + {lo + n - 1}
  }

  lemma SubsetOfSameSize(a: set<int>, b: set<int>)
    requires a <= b && |a| == |b|
    ensures a == b
  {
    assert b == a + (b - a);
    assert |b| == |a| + |b - a|;
  }

  /**
   * A list as long as there are values is full exactly when it repeats none, and a full one that
   * repeats none is that long.
   */
  lemma {:induction false} FullExactlyWhen(s: seq<int>, lo: int, n: nat)
    requires InRange(s, lo, n)
    ensures |s| == n ==> (Full(s, lo, n) <==> Distinct(s))
    ensures Full(s, lo, n) ==> (|s| == n <==> Distinct(s))
  {
    var members := Members(s);
    MembersCount(s);
    assert members <= Range(lo, n);
    if |members| == n {
      SubsetOfSameSize(members, Range(lo, n));
      forall x | lo <= x < lo + n ensures x in s {
        assert x in Range(lo, n) && x in members;
      }
    }
    if Full(s, lo, n) {
      forall x | x in Range(lo, n) ensures x in members {
        assert x in s;
      }
      assert members == Range(lo, n);
    }
  }

  lemma {:induction false} OuterFull(s: Schedule)
    requires Parsed(s)
    ensures |s.hour| == 24 && |s.dayOfMonth| == 31 && |s.month| == 12 && |s.dayOfWeek| == 7 ==>
              (EveryHourAndDay(s) <==> NoHourOrDayRepeated(s))
    ensures EveryHourAndDay(s) ==>
              (|s.hour| == 24 && |s.dayOfMonth| == 31 && |s.month| == 12 && |s.dayOfWeek| == 7 <==>
                NoHourOrDayRepeated(s))
  {
    FullExactlyWhen(s.hour, 0, 24);
    FullExactlyWhen(s.dayOfMonth, 1, 31);
    FullExactlyWhen(s.month, 1, 12);
    FullExactlyWhen(s.dayOfWeek, 0, 7);
  }

  /** The job runs in every five consecutive minutes of all time. */
  ghost predicate NeverIdle(s: Schedule, c: Calendar) {
    forall w :: RunsWithin(s, c, w, MAX_MANAGED_SCHEDULER_GAP_MINUTES)
  }

  lemma {:induction false} CoveredRuns(s: Schedule, c: Calendar, w: int)
    requires Proper(c) && EveryHourAndDay(s) && Hit(s.minute, w, MAX_MANAGED_SCHEDULER_GAP_MINUTES)
    ensures RunsWithin(s, c, w, MAX_MANAGED_SCHEDULER_GAP_MINUTES)
  {
    var t :| w <= t < w + MAX_MANAGED_SCHEDULER_GAP_MINUTES && Fires(s.minute, t);
    assert 0 <= (t / 60) % 24 < 24;
    assert DayRuns(s, c, t / 1440);
    assert Runs(s, c, t);
  }

  /** Nothing runs during the first minutes of a day the schedule leaves out. */
  lemma {:induction false} DayMissed(s: Schedule, c: Calendar, d: int)
    requires !DayRuns(s, c, d)
    ensures !RunsWithin(s, c, 1440 * d, MAX_MANAGED_SCHEDULER_GAP_MINUTES)
  {
    forall t | 1440 * d <= t < 1440 * d + 5 ensures !Runs(s, c, t) {
      assert t / 1440 == d;
    }
  }

  lemma {:induction false} HourMissed(s: Schedule, c: Calendar, h: int)
    requires 0 <= h < 24 && h !in s.hour
    ensures !RunsWithin(s, c, 60 * h, MAX_MANAGED_SCHEDULER_GAP_MINUTES)
  {
    forall t | 60 * h <= t < 60 * h + 5 ensures !Runs(s, c, t) {
      assert t / 60 == h;
    }
  }

  lemma {:induction false} MissingDay(s: Schedule, c: Calendar) returns (d: int)
    requires Proper(c)
    requires !Full(s.dayOfMonth, 1, 31) || !Full(s.month, 1, 12) || !Full(s.dayOfWeek, 0, 7)
    ensures !DayRuns(s, c, d)
  {
    if !Full(s.dayOfMonth, 1, 31) {
      var x :| 1 <= x <= 31 && x !in s.dayOfMonth;
      assert Occurs(c.dayOfMonth, x);
      d :| c.dayOfMonth(d) == x;
    } else if !Full(s.month, 1, 12) {
      var x :| 1 <= x <= 12 && x !in s.month;
      assert Occurs(c.month, x);
      d :| c.month(d) == x;
    } else {
      var x :| 0 <= x <= 6 && x !in s.dayOfWeek;
      assert Occurs(c.dayOfWeek, x);
      d :| c.dayOfWeek(d) == x;
    }
  }

  lemma {:induction false} NeverIdleExactlyWhen(s: Schedule, c: Calendar)
    requires Proper(c)
    ensures NeverIdle(s, c) <==> Covers(s.minute, MAX_MANAGED_SCHEDULER_GAP_MINUTES) && EveryHourAndDay(s)
  {
    if NeverIdle(s, c) {
      forall w ensures Hit(s.minute, w, MAX_MANAGED_SCHEDULER_GAP_MINUTES) {
        assert RunsWithin(s, c, w, MAX_MANAGED_SCHEDULER_GAP_MINUTES);
      }
      if !Full(s.hour, 0, 24) {
        var h :| 0 <= h < 24 && h !in s.hour;
        HourMissed(s, c, h);
      } else if !EveryHourAndDay(s) {
        var d := MissingDay(s, c);
        DayMissed(s, c, d);
      }
    } else if EveryHourAndDay(s) {
      var w :| !RunsWithin(s, c, w, MAX_MANAGED_SCHEDULER_GAP_MINUTES);
      if Hit(s.minute, w, MAX_MANAGED_SCHEDULER_GAP_MINUTES) { CoveredRuns(s, c, w); }
    }
  }

  /** For minutes that cover, the gap test passes exactly when none is repeated; and what passes it covers. */
  lemma {:induction false} GapTest(minutes: seq<int>)
    requires OnTheHour(minutes)
    ensures var g := GetMaximumMinuteGap(minutes);
            g.Some? && g.value <= MAX_MANAGED_SCHEDULER_GAP_MINUTES
            <==> Covers(minutes, MAX_MANAGED_SCHEDULER_GAP_MINUTES) && Distinct(minutes)
  {
    if minutes == [] {
      assert !Hit(minutes, 0, MAX_MANAGED_SCHEDULER_GAP_MINUTES);
    } else if Distinct(minutes) {
      DistinctIsTight(minutes);
    } else {
      RepeatedMinuteReadsSixty(minutes);
    }
  }

  /**
   * An accepted schedule never idles, that is it runs in every five consecutive minutes of all time,
   * exactly when no hour, day or month is listed twice: the test counts the lists without looking.
   */
  lemma {:induction false} AcceptedNeverIdlesExactlyWhen(s: Schedule, c: Calendar)
    requires Parsed(s) && Proper(c) && Accepts(s)
    ensures NeverIdle(s, c) <==> NoHourOrDayRepeated(s)
  {
    NeverIdleExactlyWhen(s, c);
    GapTest(s.minute);
    OuterFull(s);
  }

  /** A schedule that never idles is accepted exactly when nothing is listed twice, minutes included. */
  lemma {:induction false} NeverIdleIsAcceptedExactlyWhen(s: Schedule, c: Calendar)
    requires Parsed(s) && Proper(c) && NeverIdle(s, c)
    ensures Accepts(s) <==> Distinct(s.minute) && NoHourOrDayRepeated(s)
  {
    NeverIdleExactlyWhen(s, c);
    GapTest(s.minute);
    OuterFull(s);
  }

  /** Where nothing is listed twice, a schedule is accepted exactly when it never idles. */
  lemma {:induction false} AcceptedExactlyWhenNeverIdle(s: Schedule, c: Calendar)
    requires Parsed(s) && Proper(c) && Distinct(s.minute) && NoHourOrDayRepeated(s)
    ensures Accepts(s) <==> NeverIdle(s, c)
  {
    if Accepts(s) {
      AcceptedNeverIdlesExactlyWhen(s, c);
    } else if NeverIdle(s, c) {
      NeverIdleIsAcceptedExactlyWhen(s, c);
    }
  }

  /** The values from `lo` on, in order. */
  function From(lo: int, n: nat): (s: seq<int>)
    ensures |s| == n && forall i :: 0 <= i < n ==> s[i] == lo + i
  {
    seq(n, i => lo + i)
  }

  lemma {:induction false} FromRange(lo: int, n: nat)
    ensures InRange(From(lo, n), lo, n) && Distinct(From(lo, n))
  {
  }

  lemma {:induction false} EveryMinute()
    ensures Covers(From(0, 60), MAX_MANAGED_SCHEDULER_GAP_MINUTES)
  {
    var minutes := From(0, 60);
    forall w ensures Hit(minutes, w, MAX_MANAGED_SCHEDULER_GAP_MINUTES) {
      assert minutes[w % 60] == w % 60;
      assert Fires(minutes, w);
    }
  }

  lemma {:induction false} MidnightTwice()
    ensures var hours := [0] + From(0, 23);
            |hours| == 24 && InRange(hours, 0, 24) && !Distinct(hours)
  {
    var hours := [0] + From(0, 23);
    assert hours[0] == hours[1];
  }

  /** Every minute of 24 listed hours, midnight twice and the last hour missing: accepted, and idle for that hour. */
  lemma {:induction false} AcceptedCanIdle(c: Calendar) returns (s: Schedule)
    requires Proper(c)
    ensures Parsed(s) && Accepts(s) && !NeverIdle(s, c)
  {
    var minute, hour := From(0, 60), [0] + From(0, 23);
    s := Schedule(minute, hour, From(1, 31), From(1, 12), From(0, 7));
    EveryMinute();
    MidnightTwice();
    FromRange(0, 60);
    FromRange(1, 31);
    FromRange(1, 12);
    FromRange(0, 7);
    GapTest(minute);
    AcceptedNeverIdlesExactlyWhen(s, c);
  }
}
