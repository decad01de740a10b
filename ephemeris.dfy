/**
 * The ephemeris store of src/stores/ephemeris.js: the reconciliation of the displayed date
 * span, the re-indexing of fetched ephemerides by day, the aspects between planets on one
 * day and the zodiac sign of a longitude.
 */
module Ephemeris {
  import opened JsCore
  import opened DateUtils

  // ---------------------------------------------------------------------------------------
  // Date span: startDate, endDate, count and updateCount

  /** The least and greatest number of days the store will fetch. */
  const MinCount := 44
  const MaxCount := 729

  /** The start date the store opens on. */
  const DefaultStart := "2023-06-10"
  const DefaultCount := 239

  /** The default start date is the 19518th day after 1970-01-01. */
  lemma DefaultStartDay()
    ensures ParseIsoDate(DefaultStart).Some? && ParsedDay(DefaultStart) == 19518
  {
    DefaultStartParses();
    assert DayFromYear(2023) == 19358 by {
      DayFromYearClosedForm(2023);
    }
  }

  /** The default start date parses as 10 June 2023. */
  lemma DefaultStartParses()
    ensures ParseIsoDate(DefaultStart) == Some(Date(2023, 6, 10))
  {
    var s := DefaultStart;
    assert s[..4] == "2023" && s[5..7] == "06" && s[8..] == "10";
    assert DigitsValue("2023") == 2023 by {
      assert "2023"[..3] == "202" && "202"[..2] == "20" && "20"[..1] == "2" && "2"[..0] == "";
    }
    assert DigitsValue("06") == 6 by { assert "06"[..1] == "0" && "0"[..0] == ""; }
    assert DigitsValue("10") == 10 by { assert "10"[..1] == "1" && "1"[..0] == ""; }
  }

  /** 2024-02-04 is the 19757th day after 1970-01-01, 239 days after the default start. */
  lemma DefaultEndDay()
    ensures ValidDate(Date(2024, 2, 4)) && DayNumber(Date(2024, 2, 4)) == 19518 + DefaultCount
  {
    assert DayFromYear(2024) == 19723 by {
      DayFromYearClosedForm(2024);
    }
  }

  /** The default span ends on 2024-02-04, 239 days after its start. */
  lemma DefaultSpan()
    ensures AddDays(DefaultStart, Some(DefaultCount)).Ok?
    ensures ParseIsoDate(AddDays(DefaultStart, Some(DefaultCount)).value) == Some(Date(2024, 2, 4))
    ensures DiffDays(DefaultStart, AddDays(DefaultStart, Some(DefaultCount)).value) == Int(DefaultCount)
  {
    DefaultStartDay();
    DefaultEndDay();
    SpanFromDay(DefaultStart, DefaultCount, Date(2024, 2, 4));
  }

  /** `addDays(s, n)` ends on the date whose day number is n days past that of `s`. */
  lemma SpanFromDay(s: string, n: int, end: Date)
    requires ParseIsoDate(s).Some? && ValidDate(end) && 0 <= end.year <= 9999
    requires DayNumber(end) == ParsedDay(s) + n
    ensures AddDays(s, Some(n)).Ok?
    ensures ParseIsoDate(AddDays(s, Some(n)).value) == Some(end)
    ensures DiffDays(s, AddDays(s, Some(n)).value) == Int(n)
  {
    var k := DayNumber(end);
    DateFromDayNumber(end);
    FourDigitYearDate(end);
    ParseDatePrefix(end);
    AddDaysLandsOn(s, n, k);
    DiffDaysAddDays(s, n);
  }

  /**
   * What `addDays(startDate, count)` gives `updateCount` for an admissible count: it throws
   * exactly when the start date does not parse, it lands at distance `count` while the
   * result stays in years 0000 to 9999, and it gives back an end date already at that
   * distance.
   */
  lemma ReconcileFacts(start: string, end: string, c: int)
    requires MinCount <= c <= MaxCount
    ensures AddDays(start, Some(c)).Err? <==> ParseIsoDate(start).None?
    ensures AddDays(start, Some(c)).Err? ==> AddDays(start, Some(c)).error == RangeError
    ensures ParseIsoDate(start).Some? && FourDigitYearDay(ParsedDay(start) + c) ==>
              DiffDays(start, AddDays(start, Some(c)).value) == Int(c)
    ensures DiffDays(start, end) == Int(c) ==> AddDays(start, Some(c)) == Ok(end)
  {
    if ParseIsoDate(start).Some? {
      AddDaysNear(start, c);
      if FourDigitYearDay(ParsedDay(start) + c) {
        DiffDaysAddDays(start, c);
      }
      if ParseIsoDate(end).Some? {
        AddDaysDiffDays(start, end);
      }
    }
  }

  /** The count `updateCount` settles on for a distance: NaN becomes the minimum, then it is clamped. */
  function ClampedCount(d: IntOrNaN): (c: int)
    ensures MinCount <= c <= MaxCount
    ensures d.Int? && MinCount <= d.value <= MaxCount ==> c == d.value
    ensures d.NaN? ==> c == MinCount
    ensures d.Int? && d.value < MinCount ==> c == MinCount
    ensures d.Int? && d.value > MaxCount ==> c == MaxCount
  {
    if d.NaN? || d.value < MinCount then MinCount
    else if d.value > MaxCount then MaxCount
    else d.value
  }

  /**
   * The date span of the store. `refetchRequests` counts the calls of `getEphemerides()`,
   * whose HTTP request is not part of this model.
   */
  class DateSpan {
    var startDate: string
    var endDate: string
    var count: int
    var refetchRequests: nat

    /**
     * The span is reconciled: both dates parse, their distance lies within the bounds and
     * `count` is that distance.
     */
    predicate Settled()
      reads this
    {
      var d := DiffDays(startDate, endDate);
      d.Int? && MinCount <= d.value <= MaxCount && count == d.value
    }

    /** The store opens on 2023-06-10 with 239 days, the end date computed by `addDays`. */
    constructor ()
      ensures startDate == DefaultStart && count == DefaultCount && refetchRequests == 0
      ensures AddDays(startDate, Some(count)) == Ok(endDate)
      ensures ParseIsoDate(endDate) == Some(Date(2024, 2, 4))
      ensures Settled()
    {
      DefaultSpan();
      var end := AddDays(DefaultStart, Some(DefaultCount));
      startDate, count, endDate := DefaultStart, DefaultCount, end.value;
      refetchRequests := 0;
    }

    /**
     * `updateCount()`: the count becomes the distance from `startDate` to `endDate`, NaN
     * reset to the minimum and then clamped into [MinCount, MaxCount]; `endDate` becomes
     * `addDays(startDate, count)` and a refetch is requested. When `addDays` throws (the start
     * date does not parse) the count is already written and the rest is skipped.
     */
    method UpdateCount() returns (thrown: Option<JsError>)
      modifies this
      ensures startDate == old(startDate)
      ensures count == ClampedCount(old(DiffDays(startDate, endDate)))
      ensures thrown.Some? <==> ParseIsoDate(startDate).None?
      ensures thrown.Some? ==>
                thrown.value == RangeError && endDate == old(endDate) && refetchRequests == old(refetchRequests)
      ensures thrown.None? ==>
                AddDays(startDate, Some(count)) == Ok(endDate) && refetchRequests == old(refetchRequests) + 1
      ensures thrown.None? && FourDigitYearDay(ParsedDay(startDate) + count) ==> Settled()
      ensures var d := old(DiffDays(startDate, endDate));
              d.Int? && MinCount <= d.value <= MaxCount ==> thrown.None? && endDate == old(endDate)
    {
      var diff := DiffDays(startDate, endDate);
      if diff.NaN? {
        diff := Int(MinCount);
      }
      count := diff.value;
      if count < MinCount {
        count := MinCount;
      }
      if count > MaxCount {
        count := MaxCount;
      }
      ReconcileFacts(startDate, endDate, count);
      var end := AddDays(startDate, Some(count));
      if end.Err? {
        return Some(end.error);
      }
      endDate := end.value;
      refetchRequests := refetchRequests + 1;
      return None;
    }

    /** Assigning `startDate`: its watcher runs `updateCount()` when the value changes. */
    method SetStartDate(s: string) returns (thrown: Option<JsError>)
      modifies this
      ensures startDate == s
      ensures s == old(startDate) ==>
                thrown.None? && count == old(count) && endDate == old(endDate) && refetchRequests == old(refetchRequests)
      ensures s != old(startDate) ==> count == ClampedCount(DiffDays(s, old(endDate)))
      ensures s != old(startDate) ==> (thrown.Some? <==> ParseIsoDate(s).None?)
      ensures s != old(startDate) && thrown.Some? ==>
                thrown.value == RangeError && endDate == old(endDate) && refetchRequests == old(refetchRequests)
      ensures s != old(startDate) && thrown.None? ==>
                AddDays(s, Some(count)) == Ok(endDate) && refetchRequests == old(refetchRequests) + 1
      ensures s != old(startDate) && thrown.None? && FourDigitYearDay(ParsedDay(s) + count) ==> Settled()
      ensures var d := DiffDays(s, old(endDate));
              s != old(startDate) && d.Int? && MinCount <= d.value <= MaxCount ==> thrown.None? && endDate == old(endDate)
    {
      if s == startDate {
        return None;
      }
      startDate := s;
      thrown := UpdateCount();
    }

    /**
     * Assigning `endDate`: its watcher runs `updateCount()` when the value changes. An end
     * date that parses at an admissible distance from the start is kept as it is.
     */
    method SetEndDate(e: string) returns (thrown: Option<JsError>)
      modifies this
      ensures startDate == old(startDate)
      ensures e == old(endDate) ==>
                thrown.None? && count == old(count) && endDate == e && refetchRequests == old(refetchRequests)
      ensures e != old(endDate) ==> count == ClampedCount(DiffDays(startDate, e))
      ensures e != old(endDate) ==> (thrown.Some? <==> ParseIsoDate(startDate).None?)
      ensures e != old(endDate) && thrown.Some? ==>
                thrown.value == RangeError && endDate == e && refetchRequests == old(refetchRequests)
      ensures e != old(endDate) && thrown.None? ==>
                AddDays(startDate, Some(count)) == Ok(endDate) && refetchRequests == old(refetchRequests) + 1
      ensures e != old(endDate) && thrown.None? && FourDigitYearDay(ParsedDay(startDate) + count) ==> Settled()
      ensures var d := DiffDays(old(startDate), e);
              e != old(endDate) && d.Int? && MinCount <= d.value <= MaxCount ==>
                thrown.None? && endDate == e && count == d.value
                && refetchRequests == old(refetchRequests) + 1
    {
      if e == endDate {
        return None;
      }
      endDate := e;
      thrown := UpdateCount();
    }
  }

  // ---------------------------------------------------------------------------------------
  // pivotEphemerides

  /** One ephemeris record of a planet, as the server sends it. */
  datatype Ephem = Ephem(julianDate: real, longitude: real, longitudeSpeed: real)

  /** The records of one model: planet -> records in server order. */
  type PlanetSeries = map<string, seq<Ephem>>

  /** The pivoted records of one model: day -> planet -> record. */
  type DayIndex = map<int, map<string, Ephem>>

  /** The day a record is filed under: `parseInt(ephem.julianDate)`. */
  function DayKey(e: Ephem): (day: int)
    ensures 0.000001 <= e.julianDate < 1000000000000000000000.0 ==>
              day as real <= e.julianDate < day as real + 1.0
  {
    ParseIntOfNumber(e.julianDate)
  }

  /** Some record of `recs` falls on `day`. */
  predicate OnDay(recs: seq<Ephem>, day: int) {
    exists i :: 0 <= i < |recs| && DayKey(recs[i]) == day
  }

  /** The last record of `recs` that falls on `day`. */
  function LastOnDay(recs: seq<Ephem>, day: int): Option<Ephem> {
    if recs == [] then None
    else if DayKey(recs[|recs| - 1]) == day then Some(recs[|recs| - 1])
    else LastOnDay(recs[..|recs| - 1], day)
  }

  /**
   * `LastOnDay` finds a record exactly when one falls on the day, and then it is a record
   * of `recs` on that day with none after it.
   */
  lemma {:induction false} LastOnDaySpec(recs: seq<Ephem>, day: int)
    ensures LastOnDay(recs, day).None? <==> !OnDay(recs, day)
    ensures LastOnDay(recs, day).Some? ==>
              exists i :: 0 <= i < |recs| && recs[i] == LastOnDay(recs, day).value && DayKey(recs[i]) == day
                          && forall k :: i < k < |recs| ==> DayKey(recs[k]) != day
  {
    if recs != [] {
      var init := recs[..|recs| - 1];
      LastOnDaySpec(init, day);
      assert forall i :: 0 <= i < |init| ==> init[i] == recs[i];
      if DayKey(recs[|recs| - 1]) != day && OnDay(recs, day) {
        var i :| 0 <= i < |recs| && DayKey(recs[i]) == day;
        assert OnDay(init, day);
      }
    }
  }

  /** The days on which some planet of `series` has a record. */
  function DaysOf(series: PlanetSeries): (days: set<int>)
    ensures forall day :: day in days <==> exists p :: p in series && OnDay(series[p], day)
  {
    set p, i | p in series && 0 <= i < |series[p]| :: DayKey(series[p][i])
  }

  /**
   * The pivot of one model: every day some record falls on, mapped to each planet with a
   * record on that day and the last such record.
   */
  function PivotModel(series: PlanetSeries): (byDay: DayIndex)
    ensures forall day | day in byDay :: byDay[day] != map[]
  {
    FiledSomewhere(series);
    map day | day in DaysOf(series) :: Filed(series, day)
  }

  /** Every day some record falls on files at least one planet. */
  lemma FiledSomewhere(series: PlanetSeries)
    ensures forall day | day in DaysOf(series) :: Filed(series, day) != map[]
  {
    forall day | day in DaysOf(series)
      ensures Filed(series, day) != map[]
    {
      var p :| p in series && OnDay(series[p], day);
      LastOnDaySpec(series[p], day);
      assert p in Filed(series, day);
    }
  }

  /** The planets with a record on `day`, each with the last such record. */
  function Filed(series: PlanetSeries, day: int): map<string, Ephem> {
    map p | p in series && LastOnDay(series[p], day).Some? :: LastOnDay(series[p], day).value
  }

  /** The pivot of all models: model -> day -> planet -> record. */
  function Pivot(ephemerides: map<string, PlanetSeries>): (tmpEphem: map<string, DayIndex>)
    ensures tmpEphem.Keys == ephemerides.Keys
  {
    map m | m in ephemerides :: PivotModel(ephemerides[m])
  }

  /**
   * Every model of the input is in the pivot, even one without planets; a planet is filed
   * under a day exactly when one of its records falls on that day, and the record filed is
   * the last of them, unmodified; no day is filed without a planet.
   */
  lemma PivotSpec(ephemerides: map<string, PlanetSeries>, m: string, day: int, p: string)
    ensures m in Pivot(ephemerides) <==> m in ephemerides
    ensures m in ephemerides ==>
              ((day in Pivot(ephemerides)[m] && p in Pivot(ephemerides)[m][day]) <==>
                 (p in ephemerides[m] && OnDay(ephemerides[m][p], day)))
    ensures m in ephemerides && day in Pivot(ephemerides)[m] ==> Pivot(ephemerides)[m][day] != map[]
    ensures m in ephemerides && day in Pivot(ephemerides)[m] && p in Pivot(ephemerides)[m][day] ==>
              var recs := ephemerides[m][p];
              exists i :: 0 <= i < |recs| && recs[i] == Pivot(ephemerides)[m][day][p] && DayKey(recs[i]) == day
                          && forall k :: i < k < |recs| ==> DayKey(recs[k]) != day
  {
    if m in ephemerides {
      var series := ephemerides[m];
      if p in series {
        LastOnDaySpec(series[p], day);
      }
      if day in Pivot(ephemerides)[m] {
        var q :| q in series && OnDay(series[q], day);
        LastOnDaySpec(series[q], day);
        assert q in Pivot(ephemerides)[m][day];
      }
    }
  }

  /** `tmpEphem[model][jDt] = tmpEphem[model][jDt] || {}; tmpEphem[model][jDt][planet] = ephem`. */
  function Put(byDay: DayIndex, day: int, planet: string, e: Ephem): (r: DayIndex)
    ensures r.Keys == byDay.Keys + {day}
    ensures r[day].Keys == (if day in byDay then byDay[day].Keys else {}) + {planet} && r[day][planet] == e
    ensures forall q | q in r[day] && q != planet :: r[day][q] == byDay[day][q]
    ensures forall d | d in byDay && d != day :: r[d] == byDay[d]
  {
    var slot := if day in byDay then byDay[day] else map[];
    byDay[day := slot[planet := e]]
  }

  /** A planet that has no records yet adds nothing to the pivot. */
  lemma PivotModelNoRecords(series: PlanetSeries, planet: string)
    requires planet !in series
    ensures PivotModel(series[planet := []]) == PivotModel(series)
  {
    var s1 := series[planet := []];
    DaysOfNoRecords(series, planet);
    forall day
      ensures Filed(s1, day) == Filed(series, day)
    {
      FiledNoRecords(series, planet, day);
    }
  }

  lemma DaysOfNoRecords(series: PlanetSeries, planet: string)
    requires planet !in series
    ensures DaysOf(series[planet := []]) == DaysOf(series)
  {
    var s1 := series[planet := []];
    forall day
      ensures day in DaysOf(s1) <==> day in DaysOf(series)
    {
      if day in DaysOf(s1) {
        var p :| p in s1 && OnDay(s1[p], day);
        assert p != planet;
      }
      if day in DaysOf(series) {
        var p :| p in series && OnDay(series[p], day);
        assert s1[p] == series[p];
      }
    }
  }

  lemma FiledNoRecords(series: PlanetSeries, planet: string, day: int)
    requires planet !in series
    ensures Filed(series[planet := []], day) == Filed(series, day)
  {
    var s1 := series[planet := []];
    var a, b := Filed(s1, day), Filed(series, day);
    forall p
      ensures p in a <==> p in b
    {
      if p == planet {
        assert LastOnDay(s1[planet], day).None?;
      } else {
        assert p in s1 ==> s1[p] == series[p];
      }
    }
    forall p | p in a
      ensures a[p] == b[p]
    {
      assert s1[p] == series[p];
    }
  }

  /** Filing one more record of a planet is one `Put`. */
  lemma PivotModelFile(series: PlanetSeries, planet: string, recs: seq<Ephem>, e: Ephem)
    ensures PivotModel(series[planet := recs + [e]]) == Put(PivotModel(series[planet := recs]), DayKey(e), planet, e)
  {
    var s0, s1 := series[planet := recs], series[planet := recs + [e]];
    var before, after := PivotModel(s0), PivotModel(s1);
    var put := Put(before, DayKey(e), planet, e);
    assert forall day :: day in after <==> day in put by {
      DaysOfFile(series, planet, recs, e);
    }
    assert forall day :: day in after ==> after[day] == put[day] by {
      forall day | day in after
        ensures after[day] == put[day]
      {
        if DayKey(e) == day {
          FiledFileSameDay(series, planet, recs, e, day);
          if day !in before {
            FiledNone(s0, day);
          }
        } else {
          FiledFileOtherDay(series, planet, recs, e, day);
        }
      }
    }
    assert after == put;
  }

  /** Filing the record at index `i` extends the pivot of the records before it. */
  lemma PivotModelFilePrefix(series: PlanetSeries, planet: string, recs: seq<Ephem>, i: int)
    requires 0 <= i < |recs|
    ensures PivotModel(series[planet := recs[..i + 1]])
         == Put(PivotModel(series[planet := recs[..i]]), DayKey(recs[i]), planet, recs[i])
  {
    PivotModelFile(series, planet, recs[..i], recs[i]);
    assert recs[..i + 1] == recs[..i] + [recs[i]];
  }

  /** The last record on a day, once one more record is appended. */
  lemma LastOnDayAppend(recs: seq<Ephem>, e: Ephem, day: int)
    ensures LastOnDay(recs + [e], day) == if DayKey(e) == day then Some(e) else LastOnDay(recs, day)
  {
    assert (recs + [e])[..|recs|] == recs;
  }

  /** Nothing is filed on a day no record falls on. */
  lemma FiledNone(series: PlanetSeries, day: int)
    requires day !in DaysOf(series)
    ensures Filed(series, day) == map[]
  {
    forall p | p in series
      ensures LastOnDay(series[p], day).None?
    {
      LastOnDaySpec(series[p], day);
    }
  }

  lemma DaysOfFile(series: PlanetSeries, planet: string, recs: seq<Ephem>, e: Ephem)
    ensures DaysOf(series[planet := recs + [e]]) == DaysOf(series[planet := recs]) + {DayKey(e)}
  {
    var s0, s1 := series[planet := recs], series[planet := recs + [e]];
    forall day
      ensures day in DaysOf(s1) <==> day in DaysOf(s0) || day == DayKey(e)
    {
      if day in DaysOf(s1) && day != DayKey(e) {
        DaysOfFileOld(series, planet, recs, e, day);
      }
      if day in DaysOf(s0) || day == DayKey(e) {
        DaysOfFileNew(series, planet, recs, e, day);
      }
    }
  }

  /** A day of the records before the append is still a day after it, and so is the new record's. */
  lemma DaysOfFileNew(series: PlanetSeries, planet: string, recs: seq<Ephem>, e: Ephem, day: int)
    requires day in DaysOf(series[planet := recs]) || day == DayKey(e)
    ensures day in DaysOf(series[planet := recs + [e]])
  {
    var s0, s1 := series[planet := recs], series[planet := recs + [e]];
    if day == DayKey(e) {
      assert (recs + [e])[|recs|] == e;
      assert OnDay(s1[planet], day);
    } else {
      var p :| p in s0 && OnDay(s0[p], day);
      if p == planet {
        var i :| 0 <= i < |recs| && DayKey(recs[i]) == day;
        assert (recs + [e])[i] == recs[i];
        assert OnDay(s1[p], day);
      } else {
        assert s0[p] == s1[p];
      }
    }
  }

  /** A day after the append, other than the new record's, was a day before it. */
  lemma DaysOfFileOld(series: PlanetSeries, planet: string, recs: seq<Ephem>, e: Ephem, day: int)
    requires day in DaysOf(series[planet := recs + [e]]) && day != DayKey(e)
    ensures day in DaysOf(series[planet := recs])
  {
    var s0, s1 := series[planet := recs], series[planet := recs + [e]];
    var p :| p in s1 && OnDay(s1[p], day);
    if p == planet {
      var i :| 0 <= i < |recs + [e]| && DayKey((recs + [e])[i]) == day;
      assert recs[i] == (recs + [e])[i];
      assert OnDay(s0[p], day);
    } else {
      assert s0[p] == s1[p];
    }
  }

  /** Appending a record on `day` files it for its planet, replacing any earlier one. */
  lemma FiledFileSameDay(series: PlanetSeries, planet: string, recs: seq<Ephem>, e: Ephem, day: int)
    requires DayKey(e) == day
    ensures Filed(series[planet := recs + [e]], day) == Filed(series[planet := recs], day)[planet := e]
  {
    var s0, s1 := series[planet := recs], series[planet := recs + [e]];
    var a, r := Filed(s1, day), Filed(s0, day)[planet := e];
    LastOnDayAppend(recs, e, day);
    forall p
      ensures p in a <==> p in r
    {
      if p != planet {
        assert p in s1 ==> s0[p] == s1[p];
      }
    }
    forall p | p in a
      ensures a[p] == r[p]
    {
      if p != planet {
        assert s0[p] == s1[p];
      }
    }
    assert a == r;
  }

  /** Appending a record on another day leaves what is filed on `day` as it was. */
  lemma FiledFileOtherDay(series: PlanetSeries, planet: string, recs: seq<Ephem>, e: Ephem, day: int)
    requires DayKey(e) != day
    ensures Filed(series[planet := recs + [e]], day) == Filed(series[planet := recs], day)
  {
    var s0, s1 := series[planet := recs], series[planet := recs + [e]];
    LastOnDayAppend(recs, e, day);
    forall p | p in s0
      ensures LastOnDay(s0[p], day) == LastOnDay(s1[p], day)
    {
      if p != planet {
        assert s0[p] == s1[p];
      }
    }
    FiledAgree(s0, s1, day);
  }

  /** Two models whose planets have the same last record on `day` file the same on `day`. */
  lemma FiledAgree(s0: PlanetSeries, s1: PlanetSeries, day: int)
    requires s0.Keys == s1.Keys
    requires forall p | p in s0 :: LastOnDay(s0[p], day) == LastOnDay(s1[p], day)
    ensures Filed(s0, day) == Filed(s1, day)
  {
    var a, b := Filed(s0, day), Filed(s1, day);
    forall p
      ensures p in a <==> p in b
    {
    }
    forall p | p in a
      ensures a[p] == b[p]
    {
    }
    assert a == b;
  }

  /**
   * `pivotEphemerides(ephemerides)`: for every model, every planet and every record in
   * order, the record is filed under its day and planet, a later record of the same day
   * overwriting an earlier one. Models and planets are taken in whatever order the keys
   * come; the result is the same for every order.
   */
  method PivotEphemerides(ephemerides: map<string, PlanetSeries>) returns (tmpEphem: map<string, DayIndex>)
    ensures tmpEphem == Pivot(ephemerides)
  {
    tmpEphem := map[];
    var models := ephemerides.Keys;
    while models != {}
      invariant models <= ephemerides.Keys
      invariant tmpEphem.Keys == ephemerides.Keys - models
      invariant forall m :: m in tmpEphem ==> tmpEphem[m] == PivotModel(ephemerides[m])
      decreases models
    {
      var model :| model in models;
      var byDay := PivotSeries(ephemerides[model]);
      tmpEphem := tmpEphem[model := byDay];
      models := models - {model};
    }
    assert tmpEphem == Pivot(ephemerides);
  }

  /** The body of the model loop of `pivotEphemerides`: files every record of one model. */
  method PivotSeries(series: PlanetSeries) returns (byDay: DayIndex)
    ensures byDay == PivotModel(series)
  {
    byDay := map[];
    ghost var seen: PlanetSeries := map[];
    var planets := series.Keys;
    while planets != {}
      invariant planets <= series.Keys
      invariant seen == map p | p in series.Keys - planets :: series[p]
      invariant byDay == PivotModel(seen)
      decreases planets
    {
      var planet :| planet in planets;
      var recs := series[planet];
      assert byDay == PivotModel(seen[planet := []]) by {
        PivotModelNoRecords(seen, planet);
      }
      for i := 0 to |recs|
        invariant byDay == PivotModel(seen[planet := recs[..i]])
      {
        var ephem := recs[i];
        var jDt := DayKey(ephem);
        var slot := if jDt in byDay then byDay[jDt] else map[];
        PivotModelFilePrefix(seen, planet, recs, i);
        byDay := byDay[jDt := slot[planet := ephem]];
      }
      assert recs[..|recs|] == recs;
      seen := seen[planet := recs];
      planets := planets - {planet};
    }
    assert seen == series;
  }

  // ---------------------------------------------------------------------------------------
  // degreeAsSign

  /** A longitude as a zodiac sign index and the degrees into that sign, or `'x'`. */
  datatype SignPosition = SignPosition(sign: int, deg: real) | NotNumeric

  /** `degrees % 30` on Numbers: the remainder takes the sign of the dividend. */
  function Rem30(d: real): (r: real)
    ensures 0.0 <= d ==> 0.0 <= r < 30.0
    ensures d < 0.0 ==> -30.0 < r <= 0.0
    ensures d == 30.0 * Trunc(d / 30.0) as real + r
  {
    d - 30.0 * Trunc(d / 30.0) as real
  }

  /**
   * `degreeAsSign(degrees)` with the sign index taken as the integer part of `degrees / 30`:
   * a Number splits into a whole number of signs and the degrees left over; anything else
   * gives `'x'`. The glyph and the two-decimal formatting are not modelled.
   */
  function DegreeAsSign(degrees: JsValue): (r: SignPosition)
    ensures r.NotNumeric? <==> !degrees.JsNumber?
    ensures degrees.JsNumber? ==> degrees.x == 30.0 * r.sign as real + r.deg
    ensures degrees.JsNumber? && 0.0 <= degrees.x ==> 0.0 <= r.deg < 30.0
    ensures degrees.JsNumber? && degrees.x < 0.0 ==> -30.0 < r.deg <= 0.0
    ensures degrees.JsNumber? && 0.0 <= degrees.x < 360.0 ==> 0 <= r.sign < 12
  {
    match degrees
    case JsNumber(x) => SignPosition(Trunc(x / 30.0), Rem30(x))
    case _ => NotNumeric
  }

  /**
   * `degreeAsSign(degrees)` as written: the sign index is `parseInt(degrees / 30)`, which
   * reads the string form of the quotient.
   */
  function DegreeAsSignAsWritten(degrees: JsValue): (r: SignPosition)
    ensures r.NotNumeric? <==> !degrees.JsNumber?
    ensures degrees.JsNumber? && (degrees.x == 0.0 || 0.00003 <= Abs(degrees.x) < 30000000000000000000000.0) ==>
              r == DegreeAsSign(degrees)
  {
    match degrees
    case JsNumber(x) => SignPosition(ParseIntOfNumber(x / 30.0), Rem30(x))
    case _ => NotNumeric
  }

  /**
   * A longitude just past 0 degrees is read as the fourth sign: 0.00001 / 30 is written
   * "3.3333333333333335e-7", whose leading integer is 3.
   */
  lemma TinyLongitudeMisread()
    ensures DegreeAsSign(JsNumber(0.00001)) == SignPosition(0, 0.00001)
    ensures DegreeAsSignAsWritten(JsNumber(0.00001)) == SignPosition(3, 0.00001)
  {
    var q := 0.00001 / 30.0;
    assert LeadingDigit(q) == LeadingDigit(10.0 * q);
    assert LeadingDigit(10.0 * q) == LeadingDigit(100.0 * q);
    assert LeadingDigit(100.0 * q) == LeadingDigit(1000.0 * q);
    assert LeadingDigit(1000.0 * q) == LeadingDigit(10000.0 * q);
    assert LeadingDigit(10000.0 * q) == LeadingDigit(100000.0 * q);
    assert LeadingDigit(100000.0 * q) == LeadingDigit(1000000.0 * q);
    assert LeadingDigit(1000000.0 * q) == LeadingDigit(10000000.0 * q);
    assert LeadingDigit(10000000.0 * q) == 3;
  }

  // ---------------------------------------------------------------------------------------
  // aspectAng

  /**
   * `aspectAng(ang1, ang2)`: the separation of two longitudes along the shorter arc.
   * The one-argument call `aspectAng(a)` is `AspectAng(a, 0.0)`.
   */
  function AspectAng(ang1: real, ang2: real): (ang: real)
    ensures 0.0 <= ang1 < 360.0 && 0.0 <= ang2 < 360.0 ==> 0.0 <= ang <= 180.0
    ensures 0.0 <= ang1 < 360.0 && 0.0 <= ang2 < 360.0 ==>
              ang == Abs(ang1 - ang2) || ang == Abs(ang1 - ang2 + 360.0) || ang == Abs(ang1 - ang2 - 360.0)
  {
    var ang := Abs(ang1 - ang2);
    if ang > 180.0 then 360.0 - ang else ang
  }

  /** No way round the circle between two longitudes is shorter than their separation. */
  lemma AspectAngShortest(ang1: real, ang2: real, turns: int)
    requires 0.0 <= ang1 < 360.0 && 0.0 <= ang2 < 360.0
    ensures AspectAng(ang1, ang2) <= Abs(ang1 - ang2 + 360.0 * turns as real)
  {
  }

  /** The separation does not depend on the order of the two longitudes. */
  lemma AspectAngSymmetric(ang1: real, ang2: real)
    ensures AspectAng(ang1, ang2) == AspectAng(ang2, ang1)
  {
  }

  // ---------------------------------------------------------------------------------------
  // calculateAspects

  /**
   * The orb allowed around an aspect angle: half the difference of the two speeds, but
   * never less than 2 degrees.
   */
  function Orb(speed1: real, speed2: real): (variance: real)
    ensures 2.0 <= variance && Abs(speed1 - speed2) / 2.0 <= variance
    ensures variance == 2.0 || variance == Abs(speed1 - speed2) / 2.0
  {
    var half := Abs(speed1 - speed2) / 2.0;
    if half < 2.0 then 2.0 else half
  }

  /** `aspAng` lies in the closed band of half-width `variance` around `angle`. */
  function InBand(aspAng: real, angle: real, variance: real): (b: bool)
    ensures b <==> Abs(aspAng - angle) <= variance
  {
    angle - variance <= aspAng <= angle + variance
  }

  /**
   * The aspect a separation is recorded as: the last angle of `angles` whose band holds
   * it. The angle loop has no `break`, so a later match overwrites an earlier one.
   */
  function LastMatch(aspAng: real, variance: real, angles: seq<real>): (r: Option<real>)
    ensures r.Some? ==> r.value in angles
  {
    if angles == [] then None
    else
      var last := angles[|angles| - 1];
      if InBand(aspAng, last, variance) then Some(last)
      else LastMatch(aspAng, variance, angles[..|angles| - 1])
  }

  /** No band holds the angle exactly when there is no match; otherwise the match is the last band that does. */
  lemma {:induction false} LastMatchSpec(aspAng: real, variance: real, angles: seq<real>)
    ensures LastMatch(aspAng, variance, angles).None? <==>
              forall n :: 0 <= n < |angles| ==> !InBand(aspAng, angles[n], variance)
    ensures LastMatch(aspAng, variance, angles).Some? ==>
              exists n :: 0 <= n < |angles| && angles[n] == LastMatch(aspAng, variance, angles).value
                          && InBand(aspAng, angles[n], variance)
                          && forall k :: n < k < |angles| ==> !InBand(aspAng, angles[k], variance)
  {
    if angles != [] {
      var last := |angles| - 1;
      if InBand(aspAng, angles[last], variance) {
        assert LastMatch(aspAng, variance, angles) == Some(angles[last]);
      } else {
        var init := angles[..last];
        assert LastMatch(aspAng, variance, angles) == LastMatch(aspAng, variance, init);
        LastMatchSpec(aspAng, variance, init);
        assert forall n :: 0 <= n < |init| ==> init[n] == angles[n];
        if LastMatch(aspAng, variance, init).Some? {
          var n :| 0 <= n < |init| && init[n] == LastMatch(aspAng, variance, init).value
                   && InBand(aspAng, init[n], variance)
                   && forall k :: n < k < |init| ==> !InBand(aspAng, init[k], variance);
          assert angles[n] == init[n];
        }
      }
    }
  }

  /** The store's initial aspect angles: conjunction, square, trine and opposition. */
  const DefaultAspectAngles: seq<real> := [0.0, 90.0, 120.0, 180.0]

  /**
   * The default bands are at least 30 degrees apart, so while the orb stays under 15 degrees
   * a separation lies in at most one band, and the last match is the only one.
   */
  lemma DefaultBandsDisjoint(aspAng: real, variance: real, n: int)
    requires 0.0 <= variance < 15.0 && 0 <= n < |DefaultAspectAngles|
    requires InBand(aspAng, DefaultAspectAngles[n], variance)
    ensures forall k :: 0 <= k < |DefaultAspectAngles| && k != n ==> !InBand(aspAng, DefaultAspectAngles[k], variance)
    ensures LastMatch(aspAng, variance, DefaultAspectAngles) == Some(DefaultAspectAngles[n])
  {
    LastMatchSpec(aspAng, variance, DefaultAspectAngles);
  }

  /** The aspect between two planets of one day, if any. */
  function PairAspect(e1: Ephem, e2: Ephem, angles: seq<real>): Option<real> {
    LastMatch(AspectAng(e1.longitude, e2.longitude), Orb(e1.longitudeSpeed, e2.longitudeSpeed), angles)
  }

  /** The planets of one day, in `Object.keys` order, each with its record. */
  type DayEphems = seq<(string, Ephem)>

  /** The aspects found: planet -> later planet -> aspect angle. */
  type AspectTable = map<string, map<string, real>>

  /** Object keys are distinct. */
  predicate DistinctNames(planets: DayEphems) {
    forall a, b :: 0 <= a < b < |planets| ==> planets[a].0 != planets[b].0
  }

  /** `t[p][q]` is defined. */
  predicate Entry(t: AspectTable, p: string, q: string) {
    p in t && q in t[p]
  }

  /** The planet names of one day. */
  function Names(planets: DayEphems): set<string> {
    set a | 0 <= a < |planets| :: planets[a].0
  }

  /**
   * The loop state of `calculateAspects` before angle `n` of pair (i, j): every pair before
   * (i, j) holds its aspect, pair (i, j) holds the last match among the first `n` angles,
   * later pairs and reversed pairs hold nothing, only planet names are keys, no planet has an
   * empty entry and every value is one of the angles.
   */
  ghost predicate Reflects(t: AspectTable, planets: DayEphems, angles: seq<real>, i: int, j: int, n: int)
    requires 0 <= n <= |angles|
  {
    PairsFilled(t, planets, angles, i, j, n) && NoReverse(t, planets) && RowsNamed(t, planets) && ValuesAmong(t, angles)
  }

  /** The aspect each pair (a, b), a < b, holds once the loop is before angle `n` of pair (i, j). */
  function Expected(planets: DayEphems, angles: seq<real>, i: int, j: int, n: int, a: int, b: int): Option<real>
    requires 0 <= a < b < |planets| && 0 <= n <= |angles|
  {
    if a < i || (a == i && b < j) then PairAspect(planets[a].1, planets[b].1, angles)
    else if a == i && b == j then PairAspect(planets[a].1, planets[b].1, angles[..n])
    else None
  }

  ghost predicate PairsFilled(t: AspectTable, planets: DayEphems, angles: seq<real>, i: int, j: int, n: int)
    requires 0 <= n <= |angles|
  {
    forall a, b | 0 <= a < b < |planets| ::
      (Entry(t, planets[a].0, planets[b].0) <==> Expected(planets, angles, i, j, n, a, b).Some?)
      && (Entry(t, planets[a].0, planets[b].0) ==>
            t[planets[a].0][planets[b].0] == Expected(planets, angles, i, j, n, a, b).value)
  }

  /** No planet is paired with itself or with a planet before it. */
  ghost predicate NoReverse(t: AspectTable, planets: DayEphems) {
    forall a, b | 0 <= b <= a < |planets| :: !Entry(t, planets[a].0, planets[b].0)
  }

  /** Only planet names are keys, and no planet has an empty entry. */
  ghost predicate RowsNamed(t: AspectTable, planets: DayEphems) {
    RowsWithin(t, Names(planets))
  }

  /** Only members of `names` are keys, at either level, and no row is empty. */
  predicate RowsWithin(t: AspectTable, names: set<string>) {
    forall p | p in t :: p in names && t[p] != map[] && t[p].Keys <= names
  }

  /** Every recorded aspect is one of the angles. */
  ghost predicate ValuesAmong(t: AspectTable, angles: seq<real>) {
    forall p, q | Entry(t, p, q) :: t[p][q] in angles
  }

  /** `tmpAspects[p] = tmpAspects[p] || {}; tmpAspects[p][q] = angle`. */
  function Record(t: AspectTable, p: string, q: string, angle: real): (r: AspectTable)
    ensures r.Keys == t.Keys + {p}
    ensures r[p].Keys == (if p in t then t[p].Keys else {}) + {q} && r[p][q] == angle
    ensures forall q' | q' in r[p] && q' != q :: r[p][q'] == t[p][q']
    ensures forall p' | p' in t && p' != p :: r[p'] == t[p']
  {
    var row := if p in t then t[p] else map[];
    t[p := row[q := angle]]
  }

  /** One more angle of the list: it wins when its band holds the separation. */
  lemma LastMatchPrefix(aspAng: real, variance: real, angles: seq<real>, n: int)
    requires 0 <= n < |angles|
    ensures LastMatch(aspAng, variance, angles[..n + 1])
         == if InBand(aspAng, angles[n], variance) then Some(angles[n]) else LastMatch(aspAng, variance, angles[..n])
  {
    assert angles[..n + 1][..n] == angles[..n];
  }

  /** An angle whose band holds the separation of pair (i, j) is recorded for it. */
  lemma ReflectsAngleHit(t: AspectTable, planets: DayEphems, angles: seq<real>, i: int, j: int, n: int)
    requires DistinctNames(planets) && 0 <= i < j < |planets| && 0 <= n < |angles|
    requires Reflects(t, planets, angles, i, j, n)
    requires InBand(AspectAng(planets[i].1.longitude, planets[j].1.longitude), angles[n],
                    Orb(planets[i].1.longitudeSpeed, planets[j].1.longitudeSpeed))
    ensures Reflects(Record(t, planets[i].0, planets[j].0, angles[n]), planets, angles, i, j, n + 1)
  {
    var t' := Record(t, planets[i].0, planets[j].0, angles[n]);
    PairsFilledHit(t, planets, angles, i, j, n);
    NoReverseHit(t, planets, i, j, angles[n]);
    assert planets[i].0 in Names(planets) && planets[j].0 in Names(planets);
    RowsWithinRecord(t, Names(planets), planets[i].0, planets[j].0, angles[n]);
  }

  /** Recording a pair of names keeps the rows within those names and non-empty. */
  lemma RowsWithinRecord(t: AspectTable, names: set<string>, p: string, q: string, angle: real)
    requires RowsWithin(t, names) && p in names && q in names
    ensures RowsWithin(Record(t, p, q, angle), names)
  {
    var t' := Record(t, p, q, angle);
    forall r | r in t'
      ensures r in names && t'[r] != map[] && t'[r].Keys <= names
    {
      if r == p {
        assert q in t'[r];
      } else {
        assert t'[r] == t[r];
      }
    }
  }

  lemma PairsFilledHit(t: AspectTable, planets: DayEphems, angles: seq<real>, i: int, j: int, n: int)
    requires DistinctNames(planets) && 0 <= i < j < |planets| && 0 <= n < |angles|
    requires PairsFilled(t, planets, angles, i, j, n)
    requires InBand(AspectAng(planets[i].1.longitude, planets[j].1.longitude), angles[n],
                    Orb(planets[i].1.longitudeSpeed, planets[j].1.longitudeSpeed))
    ensures PairsFilled(Record(t, planets[i].0, planets[j].0, angles[n]), planets, angles, i, j, n + 1)
  {
    var aspAng := AspectAng(planets[i].1.longitude, planets[j].1.longitude);
    var variance := Orb(planets[i].1.longitudeSpeed, planets[j].1.longitudeSpeed);
    LastMatchPrefix(aspAng, variance, angles, n);
    var p, q := planets[i].0, planets[j].0;
    var t' := Record(t, p, q, angles[n]);
    forall a, b | 0 <= a < b < |planets|
      ensures Entry(t', planets[a].0, planets[b].0) <==> Expected(planets, angles, i, j, n + 1, a, b).Some?
      ensures Entry(t', planets[a].0, planets[b].0) ==>
                t'[planets[a].0][planets[b].0] == Expected(planets, angles, i, j, n + 1, a, b).value
    {
      if a != i || b != j {
        assert planets[a].0 != p || planets[b].0 != q;
        assert Expected(planets, angles, i, j, n + 1, a, b) == Expected(planets, angles, i, j, n, a, b);
      }
    }
  }

  lemma NoReverseHit(t: AspectTable, planets: DayEphems, i: int, j: int, angle: real)
    requires DistinctNames(planets) && 0 <= i < j < |planets|
    requires NoReverse(t, planets)
    ensures NoReverse(Record(t, planets[i].0, planets[j].0, angle), planets)
  {
    var p, q := planets[i].0, planets[j].0;
    var t' := Record(t, p, q, angle);
    forall a, b | 0 <= b <= a < |planets|
      ensures !Entry(t', planets[a].0, planets[b].0)
    {
      if a != i {
        assert planets[a].0 != p;
      } else {
        assert planets[b].0 != q;
      }
    }
  }

  /** An angle whose band misses the separation of pair (i, j) changes nothing. */
  lemma ReflectsAngleMiss(t: AspectTable, planets: DayEphems, angles: seq<real>, i: int, j: int, n: int)
    requires 0 <= i < j < |planets| && 0 <= n < |angles|
    requires Reflects(t, planets, angles, i, j, n)
    requires !InBand(AspectAng(planets[i].1.longitude, planets[j].1.longitude), angles[n],
                     Orb(planets[i].1.longitudeSpeed, planets[j].1.longitudeSpeed))
    ensures Reflects(t, planets, angles, i, j, n + 1)
  {
    PairsFilledMiss(t, planets, angles, i, j, n);
  }

  lemma PairsFilledMiss(t: AspectTable, planets: DayEphems, angles: seq<real>, i: int, j: int, n: int)
    requires 0 <= i < j < |planets| && 0 <= n < |angles|
    requires PairsFilled(t, planets, angles, i, j, n)
    requires !InBand(AspectAng(planets[i].1.longitude, planets[j].1.longitude), angles[n],
                     Orb(planets[i].1.longitudeSpeed, planets[j].1.longitudeSpeed))
    ensures PairsFilled(t, planets, angles, i, j, n + 1)
  {
    var aspAng := AspectAng(planets[i].1.longitude, planets[j].1.longitude);
    var variance := Orb(planets[i].1.longitudeSpeed, planets[j].1.longitudeSpeed);
    LastMatchPrefix(aspAng, variance, angles, n);
    forall a, b | 0 <= a < b < |planets|
      ensures Expected(planets, angles, i, j, n + 1, a, b) == Expected(planets, angles, i, j, n, a, b)
    {
    }
  }

  /** Before the first pair the table is empty. */
  lemma ReflectsStart(planets: DayEphems, angles: seq<real>)
    ensures Reflects(map[], planets, angles, 0, 1, 0)
  {
    assert PairsFilled(map[], planets, angles, 0, 1, 0) by {
      forall a, b | 0 <= a < b < |planets|
        ensures Expected(planets, angles, 0, 1, 0, a, b).None?
      {
        assert angles[..0] == [];
      }
    }
  }

  /** After the last angle of pair (i, j) the loop moves to pair (i, j + 1). */
  lemma ReflectsNextPair(t: AspectTable, planets: DayEphems, angles: seq<real>, i: int, j: int)
    requires Reflects(t, planets, angles, i, j, |angles|)
    ensures Reflects(t, planets, angles, i, j + 1, 0)
  {
    assert angles[..|angles|] == angles;
  }

  /** After the last pair of row i the loop moves to row i + 1. */
  lemma ReflectsNextRow(t: AspectTable, planets: DayEphems, angles: seq<real>, i: int)
    requires Reflects(t, planets, angles, i, |planets|, 0)
    ensures Reflects(t, planets, angles, i + 1, i + 2, 0)
  {
  }

  /** Once every row is done, the table holds exactly the aspects of all pairs. */
  lemma ReflectsDone(t: AspectTable, planets: DayEphems, angles: seq<real>)
    requires Reflects(t, planets, angles, |planets|, |planets| + 1, 0)
    ensures forall a, b | 0 <= a < b < |planets| ::
              var found := PairAspect(planets[a].1, planets[b].1, angles);
              (Entry(t, planets[a].0, planets[b].0) <==> found.Some?)
              && (found.Some? ==> t[planets[a].0][planets[b].0] == found.value)
    ensures forall a, b | 0 <= b <= a < |planets| :: !Entry(t, planets[a].0, planets[b].0)
    ensures forall p | p in t :: p in Names(planets) && t[p] != map[] && t[p].Keys <= Names(planets)
    ensures forall p, q | Entry(t, p, q) :: t[p][q] in angles
  {
    forall a, b | 0 <= a < b < |planets|
      ensures Expected(planets, angles, |planets|, |planets| + 1, 0, a, b) == PairAspect(planets[a].1, planets[b].1, angles)
    {
    }
  }

  /**
   * `calculateAspects(ephemeridesForDate)`: for every pair of planets i < j, the last aspect
   * angle whose band around it holds their separation is recorded under
   * `[planets[i]][planets[j]]`. The table is returned rather than attached to the input.
   */
  method CalculateAspects(ephemeridesForDate: DayEphems, aspectAngles: seq<real>) returns (tmpAspects: AspectTable)
    requires DistinctNames(ephemeridesForDate)
    ensures forall a, b | 0 <= a < b < |ephemeridesForDate| ::
              var found := PairAspect(ephemeridesForDate[a].1, ephemeridesForDate[b].1, aspectAngles);
              (Entry(tmpAspects, ephemeridesForDate[a].0, ephemeridesForDate[b].0) <==> found.Some?)
              && (found.Some? ==> tmpAspects[ephemeridesForDate[a].0][ephemeridesForDate[b].0] == found.value)
    ensures forall a, b | 0 <= b <= a < |ephemeridesForDate| ::
              !Entry(tmpAspects, ephemeridesForDate[a].0, ephemeridesForDate[b].0)
    ensures forall p | p in tmpAspects ::
              p in Names(ephemeridesForDate) && tmpAspects[p] != map[] && tmpAspects[p].Keys <= Names(ephemeridesForDate)
    ensures forall p, q | Entry(tmpAspects, p, q) :: tmpAspects[p][q] in aspectAngles
  {
    var planets := ephemeridesForDate;
    tmpAspects := map[];
    ReflectsStart(planets, aspectAngles);
    for i := 0 to |planets|
      invariant Reflects(tmpAspects, planets, aspectAngles, i, i + 1, 0)
    {
      tmpAspects := AspectsOfRow(tmpAspects, planets, aspectAngles, i);
    }
    ReflectsDone(tmpAspects, planets, aspectAngles);
  }

  /** The body of the outer loop of `calculateAspects`: planet i against every later planet. */
  method AspectsOfRow(tmpAspects: AspectTable, planets: DayEphems, aspectAngles: seq<real>, i: int)
    returns (t: AspectTable)
    requires DistinctNames(planets) && 0 <= i < |planets|
    requires Reflects(tmpAspects, planets, aspectAngles, i, i + 1, 0)
    ensures Reflects(t, planets, aspectAngles, i + 1, i + 2, 0)
  {
    t := tmpAspects;
    for j := i + 1 to |planets|
      invariant Reflects(t, planets, aspectAngles, i, j, 0)
    {
      t := AspectsOfPair(t, planets, aspectAngles, i, j);
    }
    ReflectsNextRow(t, planets, aspectAngles, i);
  }

  /**
   * The body of the inner loop of `calculateAspects` for pair (i, j): every angle whose band
   * around it holds the pair's separation is written in turn, so the last one stays.
   */
  method AspectsOfPair(tmpAspects: AspectTable, planets: DayEphems, aspectAngles: seq<real>, i: int, j: int)
    returns (t: AspectTable)
    requires DistinctNames(planets) && 0 <= i < j < |planets|
    requires Reflects(tmpAspects, planets, aspectAngles, i, j, 0)
    ensures Reflects(t, planets, aspectAngles, i, j + 1, 0)
  {
    t := tmpAspects;
    var aspAng := AspectAng(planets[i].1.longitude, planets[j].1.longitude);
    var variance := Abs(planets[i].1.longitudeSpeed - planets[j].1.longitudeSpeed) / 2.0;
    if variance < 2.0 {
      variance := 2.0;
    }
    for n := 0 to |aspectAngles|
      invariant Reflects(t, planets, aspectAngles, i, j, n)
    {
      var lowmark := aspectAngles[n] - variance;
      var highmark := aspectAngles[n] + variance;
      if aspAng >= lowmark && aspAng <= highmark {
        ReflectsAngleHit(t, planets, aspectAngles, i, j, n);
        var row := if planets[i].0 in t then t[planets[i].0] else map[];
        t := t[planets[i].0 := row[planets[j].0 := aspectAngles[n]]];
      } else {
        ReflectsAngleMiss(t, planets, aspectAngles, i, j, n);
      }
    }
    ReflectsNextPair(t, planets, aspectAngles, i, j);
  }
}
