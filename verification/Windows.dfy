/** Wave windows and leaf dates: the sizing, the cursor and the `DATE` walk of docs/wbs/render.js. */
module Windows {
  import opened Wrappers
  import opened Workdays

  /** How schedule.js is filled in. */
  datatype Schedule = Schedule(start: int, trackCap: nat, leavesPerTrackDay: nat, integrationDays: nat,
                               split: map<string, nat>)

  predicate IsSchedule(s: Schedule) {
    s.leavesPerTrackDay > 0
  }

  /** A module and how many leaves of it are being sized. */
  datatype Sized = Sized(id: string, leaves: nat)

  /**
   A wave: the modules it owns, each with all its leaves; the leaves dated into it, by module; and
   how many of those there are, which is at least one.
   */
  datatype Wave = Wave(owned: seq<Sized>, here: seq<Sized>, leaves: nat)

  // ------------------------------------------------------------ arithmetic

  function CeilDiv(a: nat, b: nat): nat
    requires b > 0
  {
    (a + b - 1) / b
  }

  /** `Math.ceil` of a quotient: the least whole number whose multiple reaches. */
  lemma CeilDivIsLeast(a: nat, b: nat, k: nat)
    requires b > 0
    ensures CeilDiv(a, b) <= k <==> a <= k * b
  {
    var q := CeilDiv(a, b);
    assert a + b - 1 == q * b + (a + b - 1) % b;
    if q <= k {
      MulOrdered(q, k, b);
    } else {
      MulOrdered(k, q - 1, b);
      assert (q - 1) * b == q * b - b;
    }
  }

  lemma MulOrdered(x: nat, y: int, b: nat)
    requires x <= y
    ensures x * b <= y * b
  {
  }

  // ------------------------------------------------------------ sizing one wave

  /** `SCH.SPLIT[id] || 1`. */
  function SplitOf(s: Schedule, id: string): (split: nat)
    ensures split > 0
    ensures split == 1 || (id in s.split && split == s.split[id])
    ensures id in s.split && s.split[id] > 1 ==> split == s.split[id]
  {
    if id in s.split && s.split[id] != 0 then s.split[id] else 1
  }

  /** A wave with no module of its own is sized from the leaves dated into it. */
  function Sizing(w: Wave): seq<Sized> {
    if w.owned == [] then w.here else w.owned
  }

  function TracksOf(s: Schedule, sized: seq<Sized>): nat {
    if sized == [] then 0 else SplitOf(s, sized[0].id) + TracksOf(s, sized[1..])
  }

  function Tracks(s: Schedule, w: Wave): (t: nat)
    ensures t > 0
  {
    var t := TracksOf(s, Sizing(w));
    if t == 0 then 1 else t
  }

  /** `Math.min(tracks, SCH.TRACK_CAP || tracks)`. */
  function Concurrent(s: Schedule, w: Wave): (c: nat)
    ensures 0 < c <= Tracks(s, w) && (s.trackCap > 0 ==> c <= s.trackCap)
    ensures c == Tracks(s, w) || c == s.trackCap
  {
    if s.trackCap == 0 || Tracks(s, w) <= s.trackCap then Tracks(s, w) else s.trackCap
  }

  /** So many days are enough: every split track fits, and so does all the work over what can run at once. */
  predicate Enough(s: Schedule, w: Wave, days: nat)
    requires IsSchedule(s)
  {
    && (forall m | m in Sizing(w) :: CeilDiv(m.leaves, SplitOf(s, m.id)) <= days * s.leavesPerTrackDay)
    && w.leaves <= days * (Concurrent(s, w) * s.leavesPerTrackDay)
  }

  lemma TracksSnoc(s: Schedule, sized: seq<Sized>, m: Sized)
    ensures TracksOf(s, sized + [m]) == TracksOf(s, sized) + SplitOf(s, m.id)
  {
    if sized != [] {
      assert (sized + [m])[1..] == sized[1..] + [m];
    }
  }

  /** The longest split track among what is being sized, at least `least`. */
  method Biggest(s: Schedule, sized: seq<Sized>, least: nat) returns (biggest: nat)
    ensures least <= biggest
    ensures forall m | m in sized :: CeilDiv(m.leaves, SplitOf(s, m.id)) <= biggest
    ensures biggest == least || exists m | m in sized :: biggest == CeilDiv(m.leaves, SplitOf(s, m.id))
  {
    biggest := least;
    for i := 0 to |sized|
      invariant least <= biggest
      invariant forall m | m in sized[..i] :: CeilDiv(m.leaves, SplitOf(s, m.id)) <= biggest
      invariant biggest == least || exists m | m in sized[..i] :: biggest == CeilDiv(m.leaves, SplitOf(s, m.id))
    {
      var m := sized[i];
      assert sized[..i + 1] == sized[..i] + [m];
      var track := CeilDiv(m.leaves, SplitOf(s, m.id));
      if track > biggest {
        biggest := track;
      }
    }
    assert sized[..|sized|] == sized;
  }

  method CountTracks(s: Schedule, sized: seq<Sized>) returns (tracks: nat)
    ensures tracks == TracksOf(s, sized)
  {
    tracks := 0;
    for i := 0 to |sized|
      invariant tracks == TracksOf(s, sized[..i])
    {
      TracksSnoc(s, sized[..i], sized[i]);
      assert sized[..i + 1] == sized[..i] + [sized[i]];
      tracks := tracks + SplitOf(s, sized[i].id);
    }
    assert sized[..|sized|] == sized;
  }

  /**
   A wave's length. Less the integration days, it is the least number of days that is enough: any
   shorter is too short for some track or for the capacity, and it and anything longer will do.
   */
  method SizeWave(s: Schedule, w: Wave) returns (days: nat)
    requires IsSchedule(s) && w.leaves > 0
    ensures days >= s.integrationDays + 1
    ensures forall d: nat :: Enough(s, w, d) <==> s.integrationDays + d >= days
  {
    var sized := Sizing(w);
    var tracks := CountTracks(s, sized);
    if tracks == 0 {
      tracks := 1;
    }
    var biggest := Biggest(s, sized, if w.owned == [] then 1 else 0);
    var byLongestTrack := CeilDiv(biggest, s.leavesPerTrackDay);
    var concurrent := if s.trackCap == 0 || tracks <= s.trackCap then tracks else s.trackCap;
    var capacity := concurrent * s.leavesPerTrackDay;
    assert concurrent == Concurrent(s, w) && capacity > 0;
    var byCapacity := CeilDiv(w.leaves, capacity);
    days := (if byLongestTrack < byCapacity then byCapacity else byLongestTrack) + s.integrationDays;
    forall d: nat
      ensures Enough(s, w, d) <==> s.integrationDays + d >= days
    {
      CeilDivIsLeast(biggest, s.leavesPerTrackDay, d);
      CeilDivIsLeast(w.leaves, capacity, d);
      if byCapacity <= d {
        AtLeastOneDay(w.leaves, capacity, d, s.leavesPerTrackDay);
      }
    }
    CeilDivIsLeast(w.leaves, capacity, 0);
  }

  lemma AtLeastOneDay(leaves: nat, capacity: nat, d: nat, per: nat)
    requires leaves > 0 && capacity > 0 && per > 0 && CeilDiv(leaves, capacity) <= d
    ensures d >= 1 && d * per >= 1
  {
    CeilDivIsLeast(leaves, capacity, d);
    CeilDivIsLeast(leaves, capacity, 0);
    MulOrdered(1, d, per);
  }

  // ------------------------------------------------------------ one window after another

  datatype Window = Window(start: int, end: int, days: nat)

  predicate SizedRight(s: Schedule, w: Wave, x: Window)
    requires IsSchedule(s)
  {
    && x.days >= s.integrationDays + 1
    && Enough(s, w, x.days - s.integrationDays)
    && (x.days >= s.integrationDays + 2 ==> !Enough(s, w, x.days - s.integrationDays - 1))
    && x.end == WorkdayAfter(x.start, x.days - 1)
  }

  /** One pass of the window loop: where a wave runs, and where the cursor is left. */
  method OpenWindow(s: Schedule, w: Wave, cursor: int) returns (x: Window, next: int)
    requires IsSchedule(s) && w.leaves > 0
    ensures SizedRight(s, w, x) && RunsItsDays(x) && x.start == cursor && next == NextWorkday(x.end)
  {
    var days := SizeWave(s, w);
    assert Enough(s, w, days - s.integrationDays);
    var end := Wd(cursor, Finite(days - 1));
    var after := Wd(end.value, Finite(1));
    assert WorkdayAfter(end.value, 1) == NextWorkday(WorkdayAfter(end.value, 0)) == NextWorkday(end.value);
    x, next := Window(cursor, end.value, days), after.value;
  }

  /** Each window starts where the cursor stands, and leaves it on the next working day. */
  method PlanWaves(s: Schedule, waves: seq<Wave>) returns (windows: seq<Window>)
    requires IsSchedule(s) && forall w | w in waves :: w.leaves > 0
    ensures |windows| == |waves|
    ensures forall i | 0 <= i < |waves| :: SizedRight(s, waves[i], windows[i])
    ensures Planned(s.start, windows)
  {
    windows := [];
    var cursor := s.start;
    for i := 0 to |waves|
      invariant |windows| == i
      invariant forall j | 0 <= j < i :: SizedRight(s, waves[j], windows[j])
      invariant Planned(s.start, windows)
      invariant cursor == if i == 0 then s.start else NextWorkday(windows[i - 1].end)
    {
      var x, next := OpenWindow(s, waves[i], cursor);
      PlannedSnoc(s.start, windows, x);
      windows := windows + [x];
      cursor := next;
    }
  }

  lemma PlannedSnoc(start: int, windows: seq<Window>, x: Window)
    requires Planned(start, windows) && RunsItsDays(x)
    requires x.start == if windows == [] then start else NextWorkday(windows[|windows| - 1].end)
    ensures Planned(start, windows + [x])
  {
    var more := windows + [x];
    forall i | 0 <= i < |more| ensures RunsItsDays(more[i]) {
      assert more[i] == if i < |windows| then windows[i] else x;
    }
    forall i | 0 < i < |more| ensures more[i].start == NextWorkday(more[i - 1].end) {
      assert more[i] == if i < |windows| then windows[i] else x;
      assert more[i - 1] == windows[i - 1];
    }
  }

  /** A window of one day or more ends on the last of its working days. */
  ghost predicate RunsItsDays(w: Window) {
    w.days >= 1 && w.end == WorkdayAfter(w.start, w.days - 1)
  }

  /** Windows laid end to end: each starts on the first working day after the one before. */
  ghost predicate Planned(start: int, windows: seq<Window>) {
    && (windows != [] ==> windows[0].start == start)
    && (forall i | 0 <= i < |windows| :: RunsItsDays(windows[i]))
    && (forall i | 0 < i < |windows| :: windows[i].start == NextWorkday(windows[i - 1].end))
  }

  /** Windows are disjoint and in order, and the days between two of them are all weekend days. */
  lemma WindowsFollowOn(start: int, windows: seq<Window>, i: nat, x: int)
    requires Planned(start, windows) && i + 1 < |windows|
    ensures windows[i].start <= windows[i].end < windows[i + 1].start
    ensures windows[i].end < x < windows[i + 1].start ==> !IsWorkday(x)
  {
    WalkCounts(windows[i].start, windows[i].days - 1);
  }

  lemma {:induction false} WindowsInOrder(start: int, windows: seq<Window>, i: nat, j: nat)
    requires Planned(start, windows) && i < j < |windows|
    ensures windows[i].end < windows[j].start
  {
    WindowsFollowOn(start, windows, j - 1, 0);
    if i < j - 1 {
      WindowsInOrder(start, windows, i, j - 1);
    }
  }

  lemma WindowWorkdays(w: Window, before: int)
    requires RunsItsDays(w)
    requires before < w.start && IsWorkday(w.start) && forall x | before < x < w.start :: !IsWorkday(x)
    ensures WorkdaysIn(before, w.end) == w.days
  {
    NoWorkdays(before, w.start - 1);
    WalkCounts(w.start, w.days - 1);
    WorkdaysSplit(before, w.start, w.end);
  }

  lemma LaterWindowWorkdays(start: int, windows: seq<Window>, i: nat)
    requires Planned(start, windows) && 0 < i < |windows|
    ensures WorkdaysIn(windows[i - 1].end, windows[i].end) == windows[i].days
    ensures windows[i - 1].end <= windows[i].end
  {
    WindowsFollowOn(start, windows, i - 1, 0);
    WindowWorkdays(windows[i], windows[i - 1].end);
    WalkCounts(windows[i].start, windows[i].days - 1);
  }

  function DaysUpTo(windows: seq<Window>, n: nat): nat
    requires n <= |windows|
  {
    if n == 0 then 0 else DaysUpTo(windows, n - 1) + windows[n - 1].days
  }

  /**
   No working day is lost or counted twice: from a plan that starts on a working day to the end of
   its nth window there are exactly as many working days as those windows have.
   */
  lemma {:induction false} EveryWorkdayIsInOneWindow(start: int, windows: seq<Window>, n: nat)
    requires Planned(start, windows) && IsWorkday(start) && 0 < n <= |windows|
    ensures WorkdaysIn(start - 1, windows[n - 1].end) == DaysUpTo(windows, n)
  {
    if n == 1 {
      WindowWorkdays(windows[0], start - 1);
      assert DaysUpTo(windows, 0) == 0;
    } else {
      EveryWorkdayIsInOneWindow(start, windows, n - 1);
      LaterWindowWorkdays(start, windows, n - 1);
      EndsAfterStart(start, windows, n - 2);
      WorkdaysSplit(start - 1, windows[n - 2].end, windows[n - 1].end);
    }
  }

  lemma {:induction false} EndsAfterStart(start: int, windows: seq<Window>, i: nat)
    requires Planned(start, windows) && i < |windows|
    ensures start <= windows[i].start <= windows[i].end
  {
    WalkCounts(windows[i].start, windows[i].days - 1);
    if i > 0 {
      EndsAfterStart(start, windows, i - 1);
    }
  }

  // ------------------------------------------------------------ leaf dates

  /** The working day of its window a module's ith leaf falls on, counted from one. */
  function LeafDay(w: Window, per: nat, i: nat): nat
    requires per > 0 && i >= 1 && w.days >= 1
  {
    var day := CeilDiv(i, per) - 1;
    if w.days - 1 <= day then w.days - 1 else day
  }

  /** Short of the window's last day, each day takes just so many leaves in turn; the last takes all the rest. */
  lemma WhichDayALeafFallsOn(w: Window, per: nat, i: nat, k: nat)
    requires per > 0 && i >= 1 && k < w.days
    ensures k < w.days - 1 ==> (LeafDay(w, per, i) == k <==> k * per < i <= (k + 1) * per)
    ensures k == w.days - 1 ==> (LeafDay(w, per, i) == k <==> k * per < i)
  {
    CeilDivIsLeast(i, per, 0);
    CeilDivIsLeast(i, per, k);
    CeilDivIsLeast(i, per, k + 1);
  }

  /** A module's leaves, dated in order across the module's own window. */
  method LeafDates(w: Window, per: nat, leaves: nat) returns (dates: seq<int>)
    requires per > 0 && RunsItsDays(w)
    ensures |dates| == leaves
    ensures forall i | 0 <= i < leaves :: dates[i] == WorkdayAfter(w.start, LeafDay(w, per, i + 1))
  {
    dates := [];
    var i := 0;
    while i < leaves
      invariant 0 <= i <= leaves && |dates| == i
      invariant forall j | 0 <= j < i :: dates[j] == WorkdayAfter(w.start, LeafDay(w, per, j + 1))
    {
      i := i + 1;
      CeilDivIsLeast(i, per, 0);
      var late := CeilDiv(i, per) - 1;
      var day := if w.days - 1 <= late then w.days - 1 else late;
      var date := Wd(w.start, Finite(if day < 0 then 0 else day));
      dates := dates + [date.value];
    }
  }

  lemma LeafDayGrows(w: Window, per: nat, i: nat, j: nat)
    requires per > 0 && w.days >= 1 && 1 <= i <= j
    ensures LeafDay(w, per, i) <= LeafDay(w, per, j) <= w.days - 1
    ensures LeafDay(w, per, i) == LeafDay(w, per, j) < w.days - 1 ==> j - i < per
  {
    var a, b := CeilDiv(i, per), CeilDiv(j, per);
    CeilDivIsLeast(i, per, 0);
    CeilDivIsLeast(j, per, b);
    CeilDivIsLeast(i, per, b);
    if a == b {
      CeilDivIsLeast(j, per, a);
      CeilDivIsLeast(i, per, a - 1);
      assert a * per == (a - 1) * per + per;
    }
  }

  /**
   Every leaf's date is inside its module's window, dates never go back, and no day but the
   window's last is given more leaves than a track does in a day.
   */
  lemma LeafDatesAreInside(w: Window, per: nat, i: nat, j: nat)
    requires per > 0 && RunsItsDays(w) && i <= j
    ensures var a := WorkdayAfter(w.start, LeafDay(w, per, i + 1));
            var b := WorkdayAfter(w.start, LeafDay(w, per, j + 1));
            w.start <= a <= b <= w.end && (a == b < w.end ==> j - i < per)
  {
    LeafDayGrows(w, per, i + 1, j + 1);
    var a, b := LeafDay(w, per, i + 1), LeafDay(w, per, j + 1);
    WalkCounts(w.start, a);
    if a < b {
      WalksOrdered(w.start, a, b);
    }
    if b < w.days - 1 {
      WalksOrdered(w.start, b, w.days - 1);
    }
  }
}
