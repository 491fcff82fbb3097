/**
 * The per-slot load counter (`slot_load`) and the crowd check that reads it.
 * The table is keyed by date and time only: it counts the patients of all
 * doctors together.
 */
module Crowding {

  import opened TimeDate

  /** A row of `slot_load`. */
  datatype SlotLoad = SlotLoad(date: Date, time: Time, currentPatients: int, maxCapacity: int)

  predicate LoadAt(s: SlotLoad, date: Date, t: Time)
  {
    s.date == date && s.time == t
  }

  /** The position of `query(SlotLoad).filter(date, time).first()`, or |loads| when there is none. */
  function FirstLoadIndex(loads: seq<SlotLoad>, date: Date, t: Time): (i: nat)
    ensures i <= |loads|
    ensures i < |loads| ==> LoadAt(loads[i], date, t)
    ensures forall j :: 0 <= j < i ==> !LoadAt(loads[j], date, t)
  {
    if loads == [] then 0
    else if LoadAt(loads[0], date, t) then 0
    else 1 + FirstLoadIndex(loads[1..], date, t)
  }

  /** The patients counted at (date, t) by the first matching row, 0 without one. */
  function LoadCount(loads: seq<SlotLoad>, date: Date, t: Time): int
  {
    var i := FirstLoadIndex(loads, date, t);
    if i < |loads| then loads[i].currentPatients else 0
  }

  /**
   * `update_slot_load`: one more patient on the first row for (date, t), with
   * its capacity left alone; a missing row is inserted with one patient and
   * capacity `maxCap`. No other row changes.
   */
  function UpdateSlotLoad(loads: seq<SlotLoad>, date: Date, t: Time, maxCap: int): (r: seq<SlotLoad>)
    ensures (exists j :: 0 <= j < |loads| && LoadAt(loads[j], date, t)) ==> |r| == |loads|
    ensures (forall j :: 0 <= j < |loads| ==> !LoadAt(loads[j], date, t))
        ==> |r| == |loads| + 1 && r[|loads|] == SlotLoad(date, t, 1, maxCap)
    ensures LoadCount(r, date, t) == LoadCount(loads, date, t) + 1
    ensures FirstLoadIndex(r, date, t) == FirstLoadIndex(loads, date, t)
    ensures FirstLoadIndex(loads, date, t) < |loads|
        ==> r[FirstLoadIndex(loads, date, t)].maxCapacity == loads[FirstLoadIndex(loads, date, t)].maxCapacity
    ensures forall j :: 0 <= j < |loads| && j != FirstLoadIndex(loads, date, t) ==> r[j] == loads[j]
  {
    var i := FirstLoadIndex(loads, date, t);
    var r := if i < |loads| then loads[i := loads[i].(currentPatients := loads[i].currentPatients + 1)]
             else loads + [SlotLoad(date, t, 1, maxCap)];
    FirstLoadIndexUnique(r, date, t, i);
    r
  }

  /** The first matching position is the only one with no match before it. */
  lemma {:induction false} FirstLoadIndexUnique(loads: seq<SlotLoad>, date: Date, t: Time, i: nat)
    requires i < |loads| && LoadAt(loads[i], date, t)
    requires forall j :: 0 <= j < i ==> !LoadAt(loads[j], date, t)
    ensures FirstLoadIndex(loads, date, t) == i
  {
    if i > 0 {
      FirstLoadIndexUnique(loads[1..], date, t, i - 1);
    }
  }

  // ---------------------------------------------------------------------------
  // The crowd check

  /** The day's rows, `query(SlotLoad).filter(slot_date == date).all()`. */
  function DayLoads(loads: seq<SlotLoad>, date: Date): (day: seq<SlotLoad>)
    ensures |day| <= |loads|
    ensures forall s :: s in day <==> s in loads && s.date == date
  {
    if loads == [] then []
    else (if loads[0].date == date then [loads[0]] else []) + DayLoads(loads[1..], date)
  }

  /** Each row of the day is kept as often as the table holds it, so `|day|` is the `n` of the mean and stdev. */
  lemma {:induction false} DayLoadsCounts(loads: seq<SlotLoad>, date: Date)
    ensures forall s :: multiset(DayLoads(loads, date))[s] == if s.date == date then multiset(loads)[s] else 0
  {
    if loads != [] {
      DayLoadsCounts(loads[1..], date);
      assert loads == [loads[0]] + loads[1..];
    }
  }

  /** The day's rows keep table order: the filter distributes over concatenation. */
  lemma {:induction false} DayLoadsAppend(a: seq<SlotLoad>, b: seq<SlotLoad>, date: Date)
    ensures DayLoads(a + b, date) == DayLoads(a, date) + DayLoads(b, date)
  {
    if a == [] {
      assert a + b == b;
    } else {
      assert (a + b)[0] == a[0] && (a + b)[1..] == a[1..] + b;
      DayLoadsAppend(a[1..], b, date);
    }
  }

  function Sum(day: seq<SlotLoad>): int
  {
    if day == [] then 0 else day[0].currentPatients + Sum(day[1..])
  }

  function Mean(day: seq<SlotLoad>): real
    requires |day| > 0
  {
    Sum(day) as real / |day| as real
  }

  function SquaredDeviations(day: seq<SlotLoad>, m: real): (r: real)
    ensures r >= 0.0
  {
    if day == [] then 0.0
    else
      var d := day[0].currentPatients as real - m;
      d * d + SquaredDeviations(day[1..], m)
  }

  /** `statistics.stdev(counts) ** 2`: the sample variance. */
  function Variance(day: seq<SlotLoad>): (v: real)
    requires |day| >= 2
    ensures v >= 0.0
  {
    SquaredDeviations(day, Mean(day)) / (|day| - 1) as real
  }

  /** `x > mean + stdev`, with the square root squared out. */
  predicate AboveMeanPlusStdev(x: int, day: seq<SlotLoad>)
    requires |day| >= 2
  {
    var d := x as real - Mean(day);
    d > 0.0 && d * d > Variance(day)
  }

  lemma MulPositive(a: real, b: real)
    requires a > 0.0 && b > 0.0
    ensures a * b > 0.0
  {
  }

  /** Squaring out the standard deviation is exact over the reals. */
  lemma AboveMeanPlusStdevMeans(x: int, day: seq<SlotLoad>, stdev: real)
    requires |day| >= 2
    requires stdev >= 0.0 && stdev * stdev == Variance(day)
    ensures AboveMeanPlusStdev(x, day) <==> x as real > Mean(day) + stdev
  {
    var d := x as real - Mean(day);
    if d > stdev {
      assert d * d > stdev * stdev by {
        assert d * d - stdev * stdev == (d - stdev) * (d + stdev);
        MulPositive(d - stdev, d + stdev);
      }
    }
  }

  /** `[s.time_slot for s in loads if s.current_patients < mean]`. */
  function BelowMean(day: seq<SlotLoad>, m: real): (r: seq<Time>)
    ensures |r| <= |day|
  {
    if day == [] then []
    else (if (day[0].currentPatients as real) < m then [day[0].time] else []) + BelowMean(day[1..], m)
  }

  datatype Crowd = Crowd(crowded: bool, suggestions: seq<Time>)

  /**
   * `check_crowding(date, target)`: not crowded without rows for the day, with
   * fewer than 5 patients on the target slot, or with fewer than 2 rows;
   * otherwise crowded when one more patient would exceed mean + stdev, and then
   * the suggestions are the slots below the mean.
   */
  function CheckCrowding(loads: seq<SlotLoad>, date: Date, target: Time): (c: Crowd)
    ensures c.crowded ==> |DayLoads(loads, date)| >= 2 && LoadCount(DayLoads(loads, date), date, target) >= 5
    ensures c.crowded ==> AboveMeanPlusStdev(LoadCount(DayLoads(loads, date), date, target) + 1, DayLoads(loads, date))
    ensures !c.crowded ==> c.suggestions == []
    ensures var day := DayLoads(loads, date); var n := LoadCount(day, date, target);
      |day| >= 2 && n >= 5 && AboveMeanPlusStdev(n + 1, day) ==> c.crowded && c.suggestions == BelowMean(day, Mean(day))
  {
    var day := DayLoads(loads, date);
    if day == [] then Crowd(false, [])
    else
      var current := LoadCount(day, date, target);
      if current < 5 then Crowd(false, [])
      else if |day| < 2 then Crowd(false, [])
      else if AboveMeanPlusStdev(current + 1, day) then Crowd(true, BelowMean(day, Mean(day)))
      else Crowd(false, [])
  }

  lemma {:induction false} BelowMeanExactly(day: seq<SlotLoad>, m: real, t: Time)
    ensures t in BelowMean(day, m) <==> exists s :: s in day && s.time == t && (s.currentPatients as real) < m
  {
    if day != [] {
      BelowMeanExactly(day[1..], m, t);
      assert forall s :: s in day <==> s == day[0] || s in day[1..];
    }
  }

  lemma BelowMeanInIntegers(c: int, sum: int, n: nat)
    requires n > 0
    ensures (c as real) < sum as real / n as real <==> c * n < sum
  {
    var q := sum as real / n as real;
    assert q * n as real == sum as real;
    if (c as real) < q {
      assert (c as real) * (n as real) < q * (n as real);
    }
    if c * n < sum {
      assert (c as real) * (n as real) < q * (n as real);
    }
  }

  /** A crowded verdict suggests exactly the day's slots whose count lies below the mean. */
  lemma SuggestionsBelowMean(loads: seq<SlotLoad>, date: Date, target: Time, t: Time)
    requires CheckCrowding(loads, date, target).crowded
    ensures var day := DayLoads(loads, date);
      t in CheckCrowding(loads, date, target).suggestions
      <==> exists s :: s in loads && s.date == date && s.time == t && s.currentPatients * |day| < Sum(day)
  {
    var day := DayLoads(loads, date);
    BelowMeanExactly(day, Mean(day), t);
    forall s | s in day ensures (s.currentPatients as real) < Mean(day) <==> s.currentPatients * |day| < Sum(day) {
      BelowMeanInIntegers(s.currentPatients, Sum(day), |day|);
    }
  }

  /**
   * When every slot of the day carries the same load of at least 5, booking one
   * of them is crowded, yet nothing lies below the mean to suggest.
   */
  lemma UniformDayIsCrowdedWithoutSuggestions(date: Date, t1: Time, t2: Time, c: int, cap: int)
    requires t1 != t2 && c >= 5
    ensures var loads := [SlotLoad(date, t1, c, cap), SlotLoad(date, t2, c, cap)];
      CheckCrowding(loads, date, t1) == Crowd(true, [])
  {
    var loads := [SlotLoad(date, t1, c, cap), SlotLoad(date, t2, c, cap)];
    assert DayLoads(loads, date) == loads by {
      assert DayLoads(loads[1..], date) == loads[1..];
    }
    assert Sum(loads) == c + c by {
      assert Sum(loads[1..]) == c;
    }
    assert Mean(loads) == c as real;
    assert SquaredDeviations(loads, c as real) == 0.0 by {
      assert SquaredDeviations(loads[1..], c as real) == 0.0;
    }
    assert LoadCount(loads, date, t1) == c;
    assert Variance(loads) == 0.0;
    assert AboveMeanPlusStdev(c + 1, loads);
    assert BelowMean(loads, c as real) == [] by {
      assert BelowMean(loads[1..], c as real) == [];
    }
  }

  /** The crowd check and the counter agree: after `update_slot_load` the check sees one more patient. */
  lemma {:induction false} DayLoadCount(loads: seq<SlotLoad>, date: Date, t: Time)
    ensures LoadCount(DayLoads(loads, date), date, t) == LoadCount(loads, date, t)
  {
    if loads != [] {
      DayLoadCount(loads[1..], date, t);
      var rest := DayLoads(loads[1..], date);
      assert loads == [loads[0]] + loads[1..];
      LoadCountCons(loads[0], loads[1..], date, t);
      if loads[0].date == date {
        assert DayLoads(loads, date) == [loads[0]] + rest;
        LoadCountCons(loads[0], rest, date, t);
      } else {
        assert DayLoads(loads, date) == rest;
      }
    }
  }

  lemma LoadCountCons(s: SlotLoad, rest: seq<SlotLoad>, date: Date, t: Time)
    ensures LoadCount([s] + rest, date, t) == if LoadAt(s, date, t) then s.currentPatients else LoadCount(rest, date, t)
  {
    assert ([s] + rest)[1..] == rest;
  }

  lemma UpdateRaisesCrowdCount(loads: seq<SlotLoad>, date: Date, t: Time, maxCap: int)
    ensures LoadCount(DayLoads(UpdateSlotLoad(loads, date, t, maxCap), date), date, t)
         == LoadCount(DayLoads(loads, date), date, t) + 1
  {
    DayLoadCount(loads, date, t);
    DayLoadCount(UpdateSlotLoad(loads, date, t, maxCap), date, t);
  }
}
