/**
 * The summary figures of src/pages/Analytics.tsx over a session list: total
 * time, session count, the most frequent timer purpose with its count, and
 * the timer/stopwatch split of the pie chart.
 */
module Analytics {
  import opened Wrappers
  import opened Seqs
  import opened Sessions

  /** The fallback shown when there is no purpose, as src/pages/Analytics.tsx:28 spells it: the mojibake of an em dash. */
  const Placeholder := "\U{00E2}\U{20AC}\U{201D}"

  datatype Stats = Stats(totalDuration: nat, totalSessions: nat, mostCommon: string, topPurposeCount: nat)

  /** The page: the empty state, or the dashboard with its figures and the pie values. */
  datatype View = EmptyState | Dashboard(stats: Stats, timerCount: nat, stopwatchCount: nat)

  const IsTimer: Session -> bool := (s: Session) => s.kind == TimerKind
  const IsStopwatch: Session -> bool := (s: Session) => s.kind == StopwatchKind

  function TimerTitled(title: string): Session -> bool
  {
    (s: Session) => s.kind == TimerKind && s.title == title
  }

  /** How many timer sessions carry this title. */
  function PurposeCount(sessions: seq<Session>, title: string): nat
  {
    CountIf(sessions, TimerTitled(title))
  }

  /** `totalDuration`: the sum of the durations; no session lasts longer than the total. */
  function TotalDuration(sessions: seq<Session>): (r: nat)
    ensures forall i :: 0 <= i < |sessions| ==> sessions[i].duration <= r
    ensures r == 0 <==> forall i :: 0 <= i < |sessions| ==> sessions[i].duration == 0
  {
    if |sessions| == 0 then 0 else sessions[0].duration + TotalDuration(sessions[1..])
  }

  /** The total is additive, so it does not depend on how the list is split. */
  lemma {:induction false} TotalDurationAppend(a: seq<Session>, b: seq<Session>)
    ensures TotalDuration(a + b) == TotalDuration(a) + TotalDuration(b)
  {
    if |a| == 0 {
      assert a + b == b;
    } else {
      assert (a + b)[0] == a[0];
      assert (a + b)[1..] == a[1..] + b;
      TotalDurationAppend(a[1..], b);
    }
  }

  /** Counting over a list extended by one session. */
  lemma CountIfSnoc(s: seq<Session>, x: Session, p: Session -> bool)
    ensures CountIf(s + [x], p) == CountIf(s, p) + (if p(x) then 1 else 0)
  {
    CountIfAppend(s, [x], p);
  }

  /** Position in the session list of the first timer session with this title, if any. */
  function FirstIndex(sessions: seq<Session>, title: string): Option<nat>
  {
    IndexOf(sessions, TimerTitled(title))
  }

  /**
   * The distinct titles of timer sessions, in the order they first occur in
   * the list: the key order of `purposeCounts`.
   */
  function Purposes(sessions: seq<Session>): (r: seq<string>)
    ensures forall i, j :: 0 <= i < j < |r| ==> r[i] != r[j]
    ensures forall t :: t in r <==> PurposeCount(sessions, t) > 0
    decreases |sessions|
  {
    if |sessions| == 0 then []
    else
      var pre := sessions[..|sessions| - 1];
      var x := sessions[|sessions| - 1];
      assert sessions == pre + [x];
      var p := Purposes(pre);
      assert forall t :: PurposeCount(sessions, t) == PurposeCount(pre, t) + (if TimerTitled(t)(x) then 1 else 0) by {
        forall t ensures PurposeCount(sessions, t) == PurposeCount(pre, t) + (if TimerTitled(t)(x) then 1 else 0) {
          CountIfSnoc(pre, x, TimerTitled(t));
        }
      }
      if x.kind == TimerKind && x.title !in p then p + [x.title] else p
  }

  /** `Purposes` lists the titles in the list order of their first timer session. */
  lemma {:induction false} PurposesInListOrder(sessions: seq<Session>)
    ensures forall i :: 0 <= i < |Purposes(sessions)| ==> FirstIndex(sessions, Purposes(sessions)[i]).Some?
    ensures forall i, j :: 0 <= i < j < |Purposes(sessions)| ==>
      FirstIndex(sessions, Purposes(sessions)[i]).value < FirstIndex(sessions, Purposes(sessions)[j]).value
    decreases |sessions|
  {
    if |sessions| > 0 {
      var pre := sessions[..|sessions| - 1];
      var x := sessions[|sessions| - 1];
      assert sessions == pre + [x];
      var p := Purposes(pre);
      PurposesInListOrder(pre);
      forall i | 0 <= i < |p| ensures FirstIndex(sessions, p[i]) == FirstIndex(pre, p[i]) {
        IndexOfSnoc(pre, x, TimerTitled(p[i]));
      }
      if x.kind == TimerKind && x.title !in p {
        assert FirstIndex(sessions, x.title) == Some(|pre|) by {
          assert PurposeCount(pre, x.title) == 0;
          IndexOfSnoc(pre, x, TimerTitled(x.title));
        }
        var r := p + [x.title];
        assert Purposes(sessions) == r;
        assert forall i :: 0 <= i < |p| ==> r[i] == p[i];
      }
    }
  }

  /**
   * `purposeCounts` (lines 21-24): built session by session, it maps exactly
   * the titles of timer sessions, each to the number of timer sessions with it.
   */
  function PurposeCounts(sessions: seq<Session>): (m: map<string, nat>)
    ensures forall t :: t in m <==> PurposeCount(sessions, t) > 0
    ensures forall t :: t in m ==> m[t] == PurposeCount(sessions, t)
    decreases |sessions|
  {
    if |sessions| == 0 then map[]
    else
      var pre := sessions[..|sessions| - 1];
      var x := sessions[|sessions| - 1];
      assert sessions == pre + [x];
      var m := PurposeCounts(pre);
      assert forall t :: PurposeCount(sessions, t) == PurposeCount(pre, t) + (if TimerTitled(t)(x) then 1 else 0) by {
        forall t ensures PurposeCount(sessions, t) == PurposeCount(pre, t) + (if TimerTitled(t)(x) then 1 else 0) {
          CountIfSnoc(pre, x, TimerTitled(t));
        }
      }
      if x.kind == TimerKind then m[x.title := (if x.title in m then m[x.title] else 0) + 1] else m
  }

  /** The sum of the counts of the given titles. */
  function SumCounts(titles: seq<string>, sessions: seq<Session>): nat
    decreases |titles|
  {
    if |titles| == 0 then 0
    else SumCounts(titles[..|titles| - 1], sessions) + PurposeCount(sessions, titles[|titles| - 1])
  }

  /** Appending one session adds one to the sum exactly when it is a timer session with a listed title. */
  lemma {:induction false} SumCountsSnoc(titles: seq<string>, pre: seq<Session>, x: Session)
    requires forall i, j :: 0 <= i < j < |titles| ==> titles[i] != titles[j]
    ensures SumCounts(titles, pre + [x]) ==
      SumCounts(titles, pre) + (if x.kind == TimerKind && x.title in titles then 1 else 0)
    decreases |titles|
  {
    if |titles| > 0 {
      var init := titles[..|titles| - 1];
      var last := titles[|titles| - 1];
      assert titles == init + [last];
      SumCountsSnoc(init, pre, x);
      CountIfSnoc(pre, x, TimerTitled(last));
      assert last !in init;
    }
  }

  /** The counts of `purposeCounts` add up to the number of timer sessions. */
  lemma {:induction false} PurposeCountsSumToTimerSessions(sessions: seq<Session>)
    ensures SumCounts(Purposes(sessions), sessions) == CountIf(sessions, IsTimer)
    decreases |sessions|
  {
    if |sessions| > 0 {
      var pre := sessions[..|sessions| - 1];
      var x := sessions[|sessions| - 1];
      assert sessions == pre + [x];
      PurposeCountsSumToTimerSessions(pre);
      CountIfSnoc(pre, x, IsTimer);
      var p := Purposes(pre);
      SumCountsSnoc(p, pre, x);
      if x.kind == TimerKind && x.title !in p {
        assert Purposes(sessions) == p + [x.title];
        assert (p + [x.title])[..|p|] == p;
        CountIfSnoc(pre, x, TimerTitled(x.title));
      }
    }
  }

  /**
   * The position of the head of the titles sorted by count, largest first,
   * by a stable sort: a title of maximal count, the earliest such in the list.
   */
  function TopIndex(titles: seq<string>, sessions: seq<Session>): (k: nat)
    requires |titles| > 0
    ensures k < |titles|
    ensures forall i :: 0 <= i < |titles| ==> PurposeCount(sessions, titles[i]) <= PurposeCount(sessions, titles[k])
    ensures forall j :: 0 <= j < k ==> PurposeCount(sessions, titles[j]) < PurposeCount(sessions, titles[k])
    decreases |titles|
  {
    if |titles| == 1 then 0
    else
      var rest := titles[1..];
      var k := TopIndex(rest, sessions);
      assert forall i :: 0 <= i < |rest| ==> rest[i] == titles[i + 1];
      if PurposeCount(sessions, titles[0]) >= PurposeCount(sessions, rest[k]) then 0 else k + 1
  }

  /** Every timer session's title is among the purposes. */
  lemma TimerTitlesArePurposes(sessions: seq<Session>)
    ensures forall i :: 0 <= i < |sessions| && IsTimer(sessions[i]) ==> sessions[i].title in Purposes(sessions)
  {
    forall i | 0 <= i < |sessions| && IsTimer(sessions[i])
      ensures sessions[i].title in Purposes(sessions)
    {
      assert TimerTitled(sessions[i].title)(sessions[i]);
    }
  }

  /**
   * The `stats` memo: total duration, number of sessions, and the most
   * frequent timer purpose with its count; the placeholder and 0 when no
   * timer session exists (and the placeholder also stands for an empty title).
   */
  function ComputeStats(sessions: seq<Session>): (r: Stats)
    ensures r.totalSessions == |sessions| && r.totalDuration == TotalDuration(sessions)
    ensures CountIf(sessions, IsTimer) == 0 ==> r.mostCommon == Placeholder && r.topPurposeCount == 0
    ensures CountIf(sessions, IsTimer) > 0 ==> r.topPurposeCount > 0
    ensures forall t :: PurposeCount(sessions, t) <= r.topPurposeCount
    ensures CountIf(sessions, IsTimer) > 0 ==>
      exists t :: PurposeCount(sessions, t) == r.topPurposeCount &&
        r.mostCommon == (if t == "" then Placeholder else t)
  {
    var titles := Purposes(sessions);
    if |titles| == 0 then
      TimerTitlesArePurposes(sessions);
      Stats(TotalDuration(sessions), |sessions|, Placeholder, 0)
    else
      var k := TopIndex(titles, sessions);
      var t := titles[k];
      var c := PurposeCount(sessions, t);
      assert CountIf(sessions, IsTimer) > 0 by {
        assert PurposeCount(sessions, titles[0]) > 0;
        var i :| 0 <= i < |sessions| && TimerTitled(titles[0])(sessions[i]);
        assert IsTimer(sessions[i]);
      }
      assert forall u :: PurposeCount(sessions, u) <= c by {
        forall u ensures PurposeCount(sessions, u) <= c {
          if PurposeCount(sessions, u) > 0 {
            assert u in titles;
          }
        }
      }
      Stats(TotalDuration(sessions), |sessions|, if t == "" then Placeholder else t, c)
  }

  /**
   * The head of the sort is, among the titles of top count, the one whose
   * first timer session stands earliest in the list.
   */
  lemma TopIndexIsEarliestListed(sessions: seq<Session>)
    requires |Purposes(sessions)| > 0
    ensures var t := Purposes(sessions)[TopIndex(Purposes(sessions), sessions)];
      && FirstIndex(sessions, t).Some?
      && forall u :: PurposeCount(sessions, u) == PurposeCount(sessions, t) ==>
           FirstIndex(sessions, u).Some? && FirstIndex(sessions, t).value <= FirstIndex(sessions, u).value
  {
    var titles := Purposes(sessions);
    PurposesInListOrder(sessions);
    var k := TopIndex(titles, sessions);
    var t := titles[k];
    forall u | PurposeCount(sessions, u) == PurposeCount(sessions, t)
      ensures FirstIndex(sessions, u).Some? && FirstIndex(sessions, t).value <= FirstIndex(sessions, u).value
    {
      assert u in titles;
      var j :| 0 <= j < |titles| && titles[j] == u;
      assert !(j < k);
      if k < j {
        assert FirstIndex(sessions, titles[k]).value < FirstIndex(sessions, titles[j]).value;
      }
    }
  }

  /**
   * `t` has the top count of `st`, is the title `st` shows (an empty title
   * shows as the placeholder), and no title of that count has a timer session
   * earlier in the list.
   */
  ghost predicate ShownAndEarliestListed(sessions: seq<Session>, st: Stats, t: string)
  {
    && PurposeCount(sessions, t) == st.topPurposeCount
    && st.mostCommon == (if t == "" then Placeholder else t)
    && FirstIndex(sessions, t).Some?
    && forall u :: PurposeCount(sessions, u) == st.topPurposeCount ==>
         FirstIndex(sessions, u).Some? && FirstIndex(sessions, t).value <= FirstIndex(sessions, u).value
  }

  /**
   * Ties are broken by list position: among the titles with the top count,
   * the one shown is the one whose first timer session stands earliest in the
   * list. The app keeps the list newest first, so that is the title of the
   * most recent session among the tied titles.
   */
  lemma MostCommonIsEarliestListed(sessions: seq<Session>)
    requires CountIf(sessions, IsTimer) > 0
    ensures exists t :: ShownAndEarliestListed(sessions, ComputeStats(sessions), t)
  {
    var titles := Purposes(sessions);
    TimerTitlesArePurposes(sessions);
    var i :| 0 <= i < |sessions| && IsTimer(sessions[i]);
    assert sessions[i].title in titles;
    TopIndexIsEarliestListed(sessions);
    var t := titles[TopIndex(titles, sessions)];
    var st := ComputeStats(sessions);
    assert st == Stats(TotalDuration(sessions), |sessions|, if t == "" then Placeholder else t, PurposeCount(sessions, t));
    assert ShownAndEarliestListed(sessions, st, t);
  }

  /** `pieData`: the numbers of timer and of stopwatch sessions, which together count every session. */
  function PieData(sessions: seq<Session>): (r: (nat, nat))
    ensures r.0 == CountIf(sessions, IsTimer) && r.1 == CountIf(sessions, IsStopwatch)
    ensures r.0 + r.1 == |sessions|
  {
    PieSplit(sessions);
    (CountIf(sessions, IsTimer), CountIf(sessions, IsStopwatch))
  }

  /** Every session is either a timer or a stopwatch session. */
  lemma {:induction false} PieSplit(sessions: seq<Session>)
    ensures CountIf(sessions, IsTimer) + CountIf(sessions, IsStopwatch) == |sessions|
  {
    if |sessions| > 0 {
      PieSplit(sessions[1..]);
    }
  }

  /** The page shows the empty state exactly for an empty list, the dashboard otherwise. */
  function Render(sessions: seq<Session>): (v: View)
    ensures v.EmptyState? <==> |sessions| == 0
    ensures v.Dashboard? ==> v.stats.totalSessions == |sessions| && v.timerCount + v.stopwatchCount == |sessions|
  {
    if |sessions| == 0 then EmptyState
    else
      var (timers, stopwatches) := PieData(sessions);
      Dashboard(ComputeStats(sessions), timers, stopwatches)
  }
}
