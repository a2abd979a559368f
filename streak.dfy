/**
 * The streak calculation of the store, over the day numbers of the cards that have at
 * least one completed task, taken latest first. `Fold` is what the loop of
 * getStreakStats computes; the lemmas say what the numbers it returns mean.
 */
module Streak {
  import opened Wrappers

  /** The loop variables: the open run's length, the best closed run, the last day seen. */
  datatype StreakState = StreakState(tempStreak: nat, bestStreak: nat, previousDate: Option<int>)

  datatype StreakStats = StreakStats(currentStreak: nat, bestStreak: nat)

  const Start: StreakState := StreakState(0, 0, None)

  function Max(a: nat, b: nat): nat {
    if a >= b then a else b
  }

  /** One loop iteration for a card with a completed task on `day`. */
  function Step(st: StreakState, day: int): (r: StreakState)
    ensures r.previousDate == Some(day)
    ensures r.bestStreak >= st.bestStreak
    ensures st.previousDate.Some? ==> Max(r.bestStreak, r.tempStreak) >= Max(st.bestStreak, st.tempStreak)
  {
    match st.previousDate
    case None => st.(tempStreak := 1, previousDate := Some(day))
    case Some(p) =>
      var dayDiff := p - day;
      if dayDiff == 1 then st.(tempStreak := st.tempStreak + 1, previousDate := Some(day))
      else if dayDiff > 1 then StreakState(1, Max(st.bestStreak, st.tempStreak), Some(day))
      else st.(previousDate := Some(day))
  }

  /** The loop state after the days of `days`, in order. */
  function Fold(days: seq<int>): (r: StreakState)
    ensures days == [] <==> r.previousDate.None?
    ensures days != [] ==> r.previousDate == Some(days[|days| - 1])
    decreases |days|
  {
    if days == [] then Start else Step(Fold(days[..|days| - 1]), days[|days| - 1])
  }

  lemma FoldSnoc(days: seq<int>, d: int)
    ensures Fold(days + [d]) == Step(Fold(days), d)
  {
    assert (days + [d])[..|days|] == days;
  }

  /** After the loop: close the open run, and keep it as current only if its day is today or yesterday. */
  function Finish(st: StreakState, today: int): (r: StreakStats)
    ensures r.currentStreak <= r.bestStreak
    ensures r.bestStreak >= st.bestStreak && r.bestStreak >= st.tempStreak
    ensures st.previousDate.None? ==> r.currentStreak == 0
    ensures r.currentStreak != 0 ==> today - st.previousDate.value <= 1
  {
    var best := Max(st.bestStreak, st.tempStreak);
    match st.previousDate
    case None => StreakStats(0, best)
    case Some(p) => StreakStats(if today - p <= 1 then st.tempStreak else 0, best)
  }

  /** The streak statistics of completed days walked in the given order. */
  function Stats(days: seq<int>, today: int): (r: StreakStats)
    ensures r.currentStreak <= r.bestStreak
    ensures days == [] ==> r.currentStreak == 0
    ensures r.currentStreak != 0 ==> today - days[|days| - 1] <= 1
  {
    Finish(Fold(days), today)
  }

  ghost function Elems(days: seq<int>): set<int> {
    set d | d in days
  }

  ghost predicate NonIncreasing(days: seq<int>) {
    forall i, j :: 0 <= i < j < |days| ==> days[i] >= days[j]
  }

  /** The `k` consecutive days `lo, lo + 1, ..., lo + k - 1` all belong to `S`. */
  ghost predicate IsRun(S: set<int>, lo: int, k: nat) {
    forall j :: lo <= j < lo + k ==> j in S
  }

  /** `n` is the length of the longest run of consecutive days in `S`. */
  ghost predicate IsLongestRun(S: set<int>, n: nat) {
    (exists lo :: IsRun(S, lo, n)) && forall lo, k: nat :: IsRun(S, lo, k) ==> k <= n
  }

  /** `n` is the length of the run that starts at `lo` and extends upwards as far as it can. */
  ghost predicate IsMaximalRunFrom(S: set<int>, lo: int, n: nat) {
    IsRun(S, lo, n) && lo + n !in S
  }

  /** `n` is the length of the run that ends at `hi` and extends downwards as far as it can. */
  ghost predicate IsMaximalRunTo(S: set<int>, hi: int, n: nat) {
    IsRun(S, hi - n + 1, n) && hi - n !in S
  }

  ghost predicate IsOldest(S: set<int>, m: int) {
    m in S && forall x :: x in S ==> m <= x
  }

  /** Every run that lies at or above `above` has length at most `b`. */
  ghost predicate BoundsRunsAbove(S: set<int>, above: int, b: nat) {
    forall lo, k: nat :: IsRun(S, lo, k) && lo >= above ==> k <= b
  }

  /**
   * What the loop state means once some day `p` has been seen: `p` is the oldest day
   * so far, the open run starts at `p` and goes up maximally, and `bestStreak` is
   * achieved by some run and bounds every run lying entirely above the open one.
   */
  ghost predicate Inv(S: set<int>, p: int, st: StreakState) {
    && st.previousDate == Some(p)
    && st.tempStreak >= 1
    && IsMaximalRunFrom(S, p, st.tempStreak)
    && BoundsRunsAbove(S, p + st.tempStreak, st.bestStreak)
    && (exists lo :: IsRun(S, lo, st.bestStreak))
    && (forall x :: x in S ==> p <= x)
  }

  ghost predicate FoldInv(days: seq<int>, st: StreakState) {
    if days == [] then st == Start else Inv(Elems(days), days[|days| - 1], st)
  }

  /** A run that avoids `d` survives removing `d`. */
  lemma RunAvoiding(S: set<int>, d: int, lo: int, k: nat)
    requires IsRun(S + {d}, lo, k) && (d < lo || lo + k <= d)
    ensures IsRun(S, lo, k)
  {
    forall j | lo <= j < lo + k ensures j in S {
      assert j in S + {d};
    }
  }

  /** A run that starts at or below `p + t - 1` stops before the missing day `p + t`. */
  lemma RunBelowGap(S: set<int>, p: int, t: nat, lo: int, k: nat)
    requires IsRun(S, lo, k) && p + t !in S && lo <= p + t - 1
    ensures lo + k <= p + t
  {
  }

  lemma RunOfMembers(S: set<int>, S': set<int>, lo: int, k: nat)
    requires IsRun(S, lo, k) && S <= S'
    ensures IsRun(S', lo, k)
  {
  }

  lemma StepFirstKeepsInv(d: int)
    ensures Inv({d}, d, Step(Start, d))
  {
    var S := {d};
    assert IsRun(S, d, 1);
    forall lo, k: nat | lo >= d + 1 && k > 0 ensures !IsRun(S, lo, k) {
      assert lo !in S;
    }
    assert IsRun(S, d, 0);
  }

  lemma StepNextDayKeepsInv(S: set<int>, p: int, st: StreakState, d: int)
    requires Inv(S, p, st) && d == p - 1
    ensures Inv(S + {d}, d, Step(st, d))
  {
    var S' := S + {d};
    var st' := Step(st, d);
    assert st' == StreakState(st.tempStreak + 1, st.bestStreak, Some(d));
    forall j | d <= j < d + st'.tempStreak ensures j in S' {
      if j > d {
        assert p <= j < p + st.tempStreak;
      }
    }
    assert d + st'.tempStreak == p + st.tempStreak;
    forall lo, k: nat | IsRun(S', lo, k) && lo >= d + st'.tempStreak ensures k <= st'.bestStreak {
      RunAvoiding(S, d, lo, k);
    }
    var lo0 :| IsRun(S, lo0, st.bestStreak);
    RunOfMembers(S, S', lo0, st.bestStreak);
  }

  lemma StepGapKeepsInv(S: set<int>, p: int, st: StreakState, d: int)
    requires Inv(S, p, st) && d < p - 1
    ensures Inv(S + {d}, d, Step(st, d))
  {
    var S' := S + {d};
    var st' := Step(st, d);
    assert st' == StreakState(1, Max(st.bestStreak, st.tempStreak), Some(d));
    assert d + 1 !in S' by {
      assert d + 1 < p;
    }
    assert IsRun(S', d, 1);
    forall lo, k: nat | IsRun(S', lo, k) && lo >= d + 1 ensures k <= st'.bestStreak {
      if k > 0 {
        RunAvoiding(S, d, lo, k);
        assert lo in S;
        if lo <= p + st.tempStreak - 1 {
          RunBelowGap(S, p, st.tempStreak, lo, k);
        }
      }
    }
    var lo0 :| IsRun(S, lo0, st.bestStreak);
    if st.bestStreak >= st.tempStreak {
      RunOfMembers(S, S', lo0, st.bestStreak);
    } else {
      RunOfMembers(S, S', p, st.tempStreak);
    }
  }

  lemma {:induction false} FoldKeepsInv(days: seq<int>)
    requires NonIncreasing(days)
    ensures FoldInv(days, Fold(days))
  {
    if days == [] {
      return;
    }
    var front := days[..|days| - 1];
    var d := days[|days| - 1];
    assert days == front + [d];
    assert NonIncreasing(front);
    FoldKeepsInv(front);
    assert Elems(days) == Elems(front) + {d};
    if front == [] {
      assert Elems(days) == {d};
      StepFirstKeepsInv(d);
      return;
    }
    var st := Fold(front);
    var p := front[|front| - 1];
    assert d <= p by {
      assert days[|front| - 1] >= days[|days| - 1];
    }
    if d == p {
      assert p in Elems(front);
      assert Elems(days) == Elems(front);
      assert Step(st, d) == st;
    } else if d == p - 1 {
      StepNextDayKeepsInv(Elems(front), p, st, d);
    } else {
      StepGapKeepsInv(Elems(front), p, st, d);
    }
  }

  /**
   * What getStreakStats returns, for the completed days taken latest first:
   * the best streak is the longest run of consecutive days; the current streak is the
   * run starting at the OLDEST completed day, kept only when that day is today or
   * yesterday; and 0 <= current <= best.
   */
  lemma StatsMeaning(days: seq<int>, today: int)
    requires NonIncreasing(days)
    ensures IsLongestRun(Elems(days), Stats(days, today).bestStreak)
    ensures Stats(days, today).currentStreak <= Stats(days, today).bestStreak
    ensures days == [] ==> Stats(days, today) == StreakStats(0, 0)
    ensures days != [] ==> IsOldest(Elems(days), days[|days| - 1])
    ensures days != [] && today - days[|days| - 1] <= 1 ==>
              IsMaximalRunFrom(Elems(days), days[|days| - 1], Stats(days, today).currentStreak)
    ensures days != [] && today - days[|days| - 1] > 1 ==> Stats(days, today).currentStreak == 0
  {
    FoldKeepsInv(days);
    var st := Fold(days);
    var S := Elems(days);
    var r := Stats(days, today);
    if days == [] {
      assert IsRun(S, 0, 0);
      forall lo, k: nat | k > 0 ensures !IsRun(S, lo, k) {
        assert lo !in S;
      }
      return;
    }
    var p := days[|days| - 1];
    var lo0 :| IsRun(S, lo0, st.bestStreak);
    forall lo, k: nat | IsRun(S, lo, k) ensures k <= r.bestStreak {
      if k > 0 {
        assert lo in S;
        if lo <= p + st.tempStreak - 1 {
          RunBelowGap(S, p, st.tempStreak, lo, k);
        } else {
          assert k <= st.bestStreak;
        }
      }
    }
    if st.bestStreak >= st.tempStreak {
      assert IsRun(S, lo0, r.bestStreak);
    } else {
      assert IsRun(S, p, r.bestStreak);
    }
  }

  // ---------------------------------------------------------------------------
  // The intended current streak: the run that contains the LATEST completed day.

  /** For completed days latest first: the length of the run that contains the first one. */
  function LeadingRun(days: seq<int>): nat
    decreases |days|
  {
    if |days| <= 1 then |days|
    else if days[0] - days[1] == 0 then LeadingRun(days[1..])
    else if days[0] - days[1] == 1 then 1 + LeadingRun(days[1..])
    else 1
  }

  /** The streak that ends today or yesterday, the only kind of streak that is still going. */
  function IntendedCurrentStreak(days: seq<int>, today: int): nat {
    if days == [] then 0
    else if today - days[0] <= 1 then LeadingRun(days)
    else 0
  }

  lemma {:induction false} LeadingRunIsMaximal(days: seq<int>)
    requires NonIncreasing(days) && days != []
    ensures IsMaximalRunTo(Elems(days), days[0], LeadingRun(days))
    ensures LeadingRun(days) >= 1
  {
    if |days| == 1 {
      assert Elems(days) == {days[0]};
      return;
    }
    var rest := days[1..];
    assert NonIncreasing(rest);
    LeadingRunIsMaximal(rest);
    assert Elems(days) == Elems(rest) + {days[0]};
    var S := Elems(days);
    var n' := LeadingRun(rest);
    if days[0] - days[1] == 0 {
      assert Elems(days) == Elems(rest);
    } else if days[0] - days[1] == 1 {
      forall j | days[0] - (n' + 1) + 1 <= j < days[0] - (n' + 1) + 1 + (n' + 1) ensures j in S {
        if j < days[0] {
          assert j in Elems(rest);
        }
      }
    } else {
      assert days[0] - 1 !in Elems(rest) by {
        forall x | x in Elems(rest) ensures x <= days[1] {
          var i :| 0 <= i < |rest| && rest[i] == x;
          if i > 0 {
            assert days[1] >= days[i + 1];
          }
        }
      }
    }
  }

  /**
   * With the intended definition, N consecutive completed days ending today or yesterday
   * (and none on the day before them) give a current streak of N, whatever older history holds.
   */
  lemma IntendedCurrentStreakMeaning(days: seq<int>, today: int)
    requires NonIncreasing(days)
    ensures days == [] ==> IntendedCurrentStreak(days, today) == 0
    ensures days != [] && today - days[0] <= 1 ==>
              IsMaximalRunTo(Elems(days), days[0], IntendedCurrentStreak(days, today))
    ensures days != [] && today - days[0] > 1 ==> IntendedCurrentStreak(days, today) == 0
  {
    if days != [] {
      LeadingRunIsMaximal(days);
    }
  }

  /**
   * Completed days D, D-1, D-2 and nothing else. As written the best streak is 3, but
   * the current streak is measured from the oldest day D-2, so it is 0 even when D is
   * yesterday; the intended current streak is then 3. When D is 3 or more days ago both are 0.
   */
  lemma ThreeDayScenario(d: int, today: int)
    ensures Stats([d, d - 1, d - 2], today).bestStreak == 3
    ensures today - d == 1 ==> Stats([d, d - 1, d - 2], today).currentStreak == 0
    ensures today - d == 1 ==> IntendedCurrentStreak([d, d - 1, d - 2], today) == 3
    ensures today - d >= 3 ==> Stats([d, d - 1, d - 2], today).currentStreak == 0
    ensures today - d >= 3 ==> IntendedCurrentStreak([d, d - 1, d - 2], today) == 0
  {
    assert [d, d - 1, d - 2][..2] == [d, d - 1];
    assert [d, d - 1][..1] == [d];
    assert [d][..0] == [];
    assert Fold([d]) == StreakState(1, 0, Some(d));
    assert Fold([d, d - 1]) == StreakState(2, 0, Some(d - 1));
    assert Fold([d, d - 1, d - 2]) == StreakState(3, 0, Some(d - 2));
    assert [d, d - 1, d - 2][1..] == [d - 1, d - 2];
    assert [d - 1, d - 2][1..] == [d - 2];
    assert LeadingRun([d - 2]) == 1;
    assert LeadingRun([d - 1, d - 2]) == 2;
    assert LeadingRun([d, d - 1, d - 2]) == 3;
  }
}
