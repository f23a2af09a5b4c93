/**
 * The condition evaluator of the screener (`evaluate_conditions`) and the
 * verdict it returns for one ticker.
 *
 * The evaluator fills a dictionary of results in two loops and a run of
 * single assignments. The first loop keys each result by the HOUR it looks
 * at and the second by that hour plus one, so later writes overwrite
 * earlier ones: key k in 5..13 and key 15 end as Close(k) >= Open(k), keys
 * 16..19 as High(k - 1) != Low(k - 1), and key 20 as Open(18) == Low(18).
 * Keys 1..4 and 14 are never written. `Outcome` states the final value of
 * every key, `Label` what the checkbox labels promise, and the lemmas
 * say where the two agree.
 */
module Conditions {
  import opened Wrappers
  import opened Bars

  /** The hours the first loop looks up, in this order; hour 14 is not among them. */
  const LoopHours: seq<int> := [5, 6, 7, 8, 9, 10, 11, 12, 13, 15, 16, 17, 18, 19]

  /** The hours of `LoopHours`. */
  predicate IsLoopHour(h: int) {
    5 <= h <= 19 && h != 14
  }

  lemma LoopHoursSpan()
    ensures forall h :: h in LoopHours <==> IsLoopHour(h)
  {
  }

  /**
   * Every bar the evaluator looks up on its own is in the series. All the
   * single-hour lookups (hours 5..13 and 15..19) happen in the first loop;
   * the later ones repeat some of them.
   */
  predicate AllPresent(data: seq<Bar>) {
    forall h :: 5 <= h <= 19 && h != 14 ==> FirstAt(data, h).Some?
  }

  /** `B(h)`: the first bar of hour `h`, known to exist. */
  function At(data: seq<Bar>, h: int): Bar
    requires FirstAt(data, h).Some?
  {
    FirstAt(data, h).value
  }

  /** The ids the evaluator writes a result for: 5..47 except 14. */
  predicate IsWritten(id: int) {
    5 <= id <= 47 && id != 14
  }

  /**
   * What the evaluator reads from a series whose lookups all succeed: the
   * first bar of every loop hour, `high1` (highest High over hours 4..20),
   * `high2` (over 10..15), `high3` (over 10..20) and `low_range` (lowest
   * Low over 4..20).
   */
  datatype Readings = Readings(bars: map<int, Bar>, high1: real, high2: real, high3: real, lowRange: real)

  /** The readings hold a bar for every loop hour. */
  ghost predicate Complete(rd: Readings) {
    forall h :: IsLoopHour(h) ==> h in rd.bars
  }

  /** The first bar of every loop hour. */
  function LoopBars(data: seq<Bar>): (bars: map<int, Bar>)
    requires AllPresent(data)
    ensures forall h :: h in bars <==> IsLoopHour(h)
  {
    map h | 5 <= h <= 19 && h != 14 :: At(data, h)
  }

  /** `high1`: the highest High over hours 4..20, a window holding the bar of hour 5. */
  function HighAll(data: seq<Bar>): real
    requires AllPresent(data)
  {
    PresentInWindow(data, 5, 4, 20);
    MaxHigh(Window(data, 4, 20))
  }

  /** `high2`: the highest High over hours 10..15, a window holding the bar of hour 10. */
  function HighMidday(data: seq<Bar>): real
    requires AllPresent(data)
  {
    PresentInWindow(data, 10, 10, 15);
    MaxHigh(Window(data, 10, 15))
  }

  /** `high3`: the highest High over hours 10..20. */
  function HighLate(data: seq<Bar>): real
    requires AllPresent(data)
  {
    PresentInWindow(data, 10, 10, 20);
    MaxHigh(Window(data, 10, 20))
  }

  /** `low_range`: the lowest Low over hours 4..20. */
  function LowAll(data: seq<Bar>): real
    requires AllPresent(data)
  {
    PresentInWindow(data, 5, 4, 20);
    MinLow(Window(data, 4, 20))
  }

  /** The readings of a series. */
  function ReadingsOf(data: seq<Bar>): (rd: Readings)
    requires AllPresent(data)
    ensures Complete(rd)
  {
    Readings(LoopBars(data), HighAll(data), HighMidday(data), HighLate(data), LowAll(data))
  }

  /**
   * The result the single assignments store under `id` (20..47), with `ref`
   * the reference price (`open_16h_day_minus1`). The clause
   * `high1 is not None` of ids 41 and 42 never fails (a float is never
   * None) and so does not appear.
   */
  function SingleResult(rd: Readings, ref: real, id: int): bool
    requires Complete(rd) && 20 <= id <= 47
  {
    var b9, b10, b16, b17, b18, b19 :=
      rd.bars[9], rd.bars[10], rd.bars[16], rd.bars[17], rd.bars[18], rd.bars[19];
    match id
    case 20 => b18.open == b18.low
    case 21 => b18.close != b18.high
    case 22 => rd.high1 == rd.high2
    case 23 => b18.close < b18.open
    case 24 => b18.open != b18.high
    case 25 => b18.close == b18.low
    case 26 => b18.high == b18.low
    case 27 => rd.high1 == rd.high3
    case 28 => b10.close < b10.open
    case 29 => b10.high >= b9.high
    case 30 => b10.low >= b9.low
    case 31 => b17.low <= b16.low
    case 32 => b17.open == b17.low
    case 33 => b18.open == b18.high
    case 34 => b18.close != b18.low
    case 35 => b19.close > b16.low
    case 36 => b19.low > b16.low
    case 37 => b19.low > b17.low
    case 38 => b19.low > b18.low
    case 39 => b16.open == b16.low
    case 40 => b16.open == b16.high
    case 41 => b18.close < b18.open
    case 42 => b18.close >= b18.open
    case 43 => rd.high1 > 3.0 / 2.0 * ref
    case 44 => rd.high1 > 17.0 / 10.0 * ref
    case 45 => rd.high1 > 2.0 * ref
    case 46 => rd.high1 > 23.0 / 10.0 * ref
    case 47 => rd.lowRange < 1.0 / 2.0 * ref
  }

  /**
   * The value the evaluator leaves under key `id` once every write has been
   * made: keys 5..13 and 15 hold the first loop's Close >= Open of that
   * hour, keys 16..19 the second loop's High != Low of the hour before,
   * and keys 20..47 the single assignments (key 20's second-loop value is
   * overwritten).
   */
  function Outcome(rd: Readings, ref: real, id: int): bool
    requires Complete(rd) && IsWritten(id)
  {
    if 5 <= id <= 13 || id == 15 then rd.bars[id].close >= rd.bars[id].open
    else if 16 <= id <= 19 then rd.bars[id - 1].high != rd.bars[id - 1].low
    else SingleResult(rd, ref, id)
  }

  /** Every written id with its final value. */
  function OutcomeMap(rd: Readings, ref: real): map<int, bool>
    requires Complete(rd)
  {
    map id | 5 <= id <= 47 && id != 14 :: Outcome(rd, ref, id)
  }

  /**
   * The evaluator's dictionary: one entry per written id, or `None` when a
   * single-hour lookup failed (the exception path).
   */
  function Results(data: seq<Bar>, ref: real): Option<map<int, bool>> {
    if AllPresent(data) then Some(OutcomeMap(ReadingsOf(data), ref)) else None
  }

  /**
   * The verdict `evaluate_conditions` returns: the evaluation succeeded and
   * every enabled id holds, an id without a result counting as false.
   */
  predicate Passes(data: seq<Bar>, ref: real, enabled: set<int>) {
    AllPresent(data) && forall id :: id in enabled ==> IsWritten(id) && Outcome(ReadingsOf(data), ref, id)
  }

  /**
   * The dictionary after the second loop has written the keys 16..`hour`:
   * those hold High != Low of the hour before, the other loop hours the
   * first loop's Close >= Open.
   */
  ghost predicate SecondLoopState(rd: Readings, results: map<int, bool>, hour: int)
    requires Complete(rd)
  {
    15 <= hour <= 20 &&
    (forall k :: k in results <==> IsLoopHour(k) || 16 <= k <= hour) &&
    forall k {:trigger results[k]} :: k in results ==>
      results[k] == if 16 <= k <= hour then rd.bars[k - 1].high != rd.bars[k - 1].low
                    else rd.bars[k].close >= rd.bars[k].open
  }

  /** One turn of the second loop writes key `hour + 1` from the bar of `hour`. */
  lemma SecondLoopStep(rd: Readings, results: map<int, bool>, hour: int)
    requires Complete(rd) && SecondLoopState(rd, results, hour) && hour < 20
    ensures SecondLoopState(rd, results[hour + 1 := rd.bars[hour].high != rd.bars[hour].low], hour + 1)
  {
  }

  /**
   * After the second loop every key below 20 already holds its final value:
   * 5..13 and 15 the first loop's result, 16..19 the second loop's.
   */
  lemma LoopsAgreeWithOutcome(rd: Readings, ref: real, looped: map<int, bool>)
    requires Complete(rd) && SecondLoopState(rd, looped, 20)
    ensures forall k :: 5 <= k < 20 && k != 14 ==> k in looped && looped[k] == Outcome(rd, ref, k)
  {
    forall k | 5 <= k < 20 && k != 14
      ensures k in looped && looped[k] == Outcome(rd, ref, k)
    {
      assert IsLoopHour(k) && k in looped;
      if 16 <= k {
        assert looped[k] == (rd.bars[k - 1].high != rd.bars[k - 1].low);
      } else {
        assert looped[k] == (rd.bars[k].close >= rd.bars[k].open);
      }
    }
  }

  /**
   * Merging the single assignments into the dictionary the two loops leave
   * gives the dictionary of final outcomes.
   */
  lemma FinalResults(rd: Readings, ref: real, looped: map<int, bool>)
    requires Complete(rd)
    requires forall k :: k in looped <==> IsLoopHour(k) || 16 <= k <= 20
    requires forall k :: 5 <= k < 20 && k != 14 ==> k in looped && looped[k] == Outcome(rd, ref, k)
    ensures looped + (map id | 20 <= id <= 47 :: SingleResult(rd, ref, id)) == OutcomeMap(rd, ref)
  {
    var merged := looped + map id | 20 <= id <= 47 :: SingleResult(rd, ref, id);
    var expected := OutcomeMap(rd, ref);
    assert merged.Keys == expected.Keys;
    forall id | id in merged
      ensures merged[id] == expected[id]
    {
      if id < 20 {
        assert merged[id] == looped[id];
      } else {
        assert merged[id] == SingleResult(rd, ref, id);
      }
    }
    assert merged == expected;
  }

  /**
   * When the first loop runs to the end, every loop hour was found and its
   * result is the Close >= Open of the bar in the readings.
   */
  lemma FirstLoopFindsAll(data: seq<Bar>, results: map<int, bool>)
    requires forall h :: h in results <==> h in LoopHours[..|LoopHours|]
    requires forall h :: h in results ==>
      FirstAt(data, h).Some? && results[h] == (At(data, h).close >= At(data, h).open)
    ensures AllPresent(data)
    ensures forall h :: h in results <==> IsLoopHour(h)
    ensures forall h :: h in results ==>
      results[h] == (ReadingsOf(data).bars[h].close >= ReadingsOf(data).bars[h].open)
  {
    LoopHoursSpan();
    assert LoopHours[..|LoopHours|] == LoopHours;
    forall h | 5 <= h <= 19 && h != 14 ensures FirstAt(data, h).Some? {
      assert h in results;
    }
  }

  /**
   * Fills the result dictionary as `evaluate_conditions` does: the first
   * loop keyed by hour, the second keyed by hour + 1, then the single
   * assignments, each write replacing any earlier value under its key.
   */
  method Evaluate(data: seq<Bar>, ref: real) returns (r: Option<map<int, bool>>)
    ensures r == Results(data, ref)
  {
    var results: map<int, bool> := map[];
    var hours := LoopHours;
    for i := 0 to |hours|
      invariant forall h :: h in results <==> h in hours[..i]
      invariant forall h :: h in results ==>
        FirstAt(data, h).Some? && results[h] == (At(data, h).close >= At(data, h).open)
    {
      var row := FirstAt(data, hours[i]);
      if row.None? {
        LoopHoursSpan();
        return None;
      }
      results := results[hours[i] := row.value.close >= row.value.open];
    }
    FirstLoopFindsAll(data, results);
    var rd := ReadingsOf(data);
    assert SecondLoopState(rd, results, 15);
    // The lookups below repeat ones the first loop made, so they cannot fail.
    for hour := 15 to 20
      invariant Complete(rd) && SecondLoopState(rd, results, hour)
    {
      var row := At(data, hour);
      assert row == rd.bars[hour];
      SecondLoopStep(rd, results, hour);
      results := results[hour + 1 := row.high != row.low];
    }
    LoopsAgreeWithOutcome(rd, ref, results);
    FinalResults(rd, ref, results);
    // Lines 199-235 write each of the keys 20..47 once, so together they
    // merge one entry per key into the dictionary.
    results := results + map id | 20 <= id <= 47 :: SingleResult(rd, ref, id);
    r := Some(results);
  }

  /**
   * `evaluate_conditions`: the AND of `results.get(id, False)` over the
   * enabled ids, or false when the evaluation raised.
   */
  method EvaluateConditions(data: seq<Bar>, ref: real, enabled: set<int>) returns (pass: bool)
    ensures pass == Passes(data, ref, enabled)
    ensures enabled == {} ==> pass == AllPresent(data)
  {
    var r := Evaluate(data, ref);
    if r.None? {
      return false;
    }
    var results := r.value;
    pass := forall id | id in enabled :: id in results && results[id];
  }

  // ---------------------------------------------------------------------
  // What the dictionary holds

  /**
   * A successful evaluation leaves exactly the ids 5..47 except 14, with
   * the keying of the two loops and key 20 overwritten by Open(18) == Low(18).
   */
  lemma ResultsKeyedByHour(data: seq<Bar>, ref: real)
    requires AllPresent(data)
    ensures Results(data, ref).Some?
    ensures var m := Results(data, ref).value;
      && (forall id :: id in m <==> IsWritten(id))
      && (forall h :: 5 <= h <= 13 || h == 15 ==> m[h] == (At(data, h).close >= At(data, h).open))
      && (forall h :: 16 <= h <= 19 ==> m[h] == (At(data, h - 1).high != At(data, h - 1).low))
      && m[20] == (At(data, 18).open == At(data, 18).low)
  {
    var rd := ReadingsOf(data);
    var m := Results(data, ref).value;
    assert m == OutcomeMap(rd, ref);
    forall h | 5 <= h <= 19 && h != 14
      ensures m[h] == Outcome(rd, ref, h) && rd.bars[h] == At(data, h)
    {
    }
  }

  /** The evaluation fails exactly when a single-hour lookup finds no bar. */
  lemma MissingBarFails(data: seq<Bar>, ref: real, enabled: set<int>, h: int)
    requires IsLoopHour(h) && FirstAt(data, h).None?
    ensures Results(data, ref).None?
    ensures !Passes(data, ref, enabled)
  {
  }

  /**
   * The verdict is the AND of `results.get(id, False)` over the enabled ids:
   * it holds when the evaluation succeeds and every enabled id is a key
   * holding true.
   */
  lemma VerdictIsConjunction(data: seq<Bar>, ref: real, enabled: set<int>)
    ensures Passes(data, ref, enabled) <==>
      Results(data, ref).Some? &&
      forall id :: id in enabled ==> id in Results(data, ref).value && Results(data, ref).value[id]
  {
    if AllPresent(data) {
      var m := Results(data, ref).value;
      assert forall id :: id in m <==> IsWritten(id);
    }
  }

  /** With no condition enabled every series whose lookups succeed passes. */
  lemma NothingEnabledPasses(data: seq<Bar>, ref: real)
    ensures Passes(data, ref, {}) <==> AllPresent(data)
  {
  }

  /** Enabling an id the evaluator never writes (1..4, 14 or above 47) rejects every series. */
  lemma UnwrittenIdFails(data: seq<Bar>, ref: real, enabled: set<int>, id: int)
    requires id in enabled && !IsWritten(id)
    ensures !Passes(data, ref, enabled)
  {
  }

  /** Enabling more conditions can only turn a pass into a failure. */
  lemma MoreConditionsFewerPasses(data: seq<Bar>, ref: real, fewer: set<int>, more: set<int>)
    requires fewer <= more && Passes(data, ref, more)
    ensures Passes(data, ref, fewer)
  {
  }

  // ---------------------------------------------------------------------
  // Relations between conditions

  /**
   * Condition 22 implies condition 27: the 10..15 window lies inside the
   * 10..20 window, which lies inside the 4..20 window, so
   * high2 <= high3 <= high1 and high1 == high2 forces high1 == high3.
   */
  lemma Condition22Implies27(data: seq<Bar>, ref: real)
    requires AllPresent(data)
    ensures Outcome(ReadingsOf(data), ref, 22) ==> Outcome(ReadingsOf(data), ref, 27)
  {
    WindowHighsOrdered(data);
    var rd := ReadingsOf(data);
    assert rd.high1 == HighAll(data) && rd.high2 == HighMidday(data) && rd.high3 == HighLate(data);
    DayHighFacts(rd, ref);
  }

  /** The 10h..15h window lies in the 10h..20h window, which lies in the 4h..20h window. */
  lemma WindowHighsOrdered(data: seq<Bar>)
    requires AllPresent(data)
    ensures HighMidday(data) <= HighLate(data) <= HighAll(data)
  {
    PresentInWindow(data, 10, 10, 15);
    WindowMaxMonotone(data, 10, 15, 10, 20);
    WindowMaxMonotone(data, 10, 20, 4, 20);
  }

  /** Conditions 22, 27, 43 and 47 compare the window readings. */
  lemma DayHighFacts(rd: Readings, ref: real)
    requires Complete(rd)
    ensures Outcome(rd, ref, 22) == (rd.high1 == rd.high2)
    ensures Outcome(rd, ref, 27) == (rd.high1 == rd.high3)
    ensures Outcome(rd, ref, 43) == (rd.high1 > 3.0 / 2.0 * ref)
    ensures Outcome(rd, ref, 47) == (rd.lowRange < 1.0 / 2.0 * ref)
  {
  }

  /**
   * Conditions 41 and 42 split on the 18h bar's direction (the window
   * clause never fails): exactly one holds and 41 is condition 23.
   */
  lemma Conditions41And42(rd: Readings, ref: real)
    requires Complete(rd)
    ensures Outcome(rd, ref, 41) != Outcome(rd, ref, 42)
    ensures Outcome(rd, ref, 41) == Outcome(rd, ref, 23)
  {
  }

  /**
   * For a non-negative reference price the ratio thresholds nest:
   * 46 implies 45 implies 44 implies 43.
   */
  lemma RatioChain(rd: Readings, ref: real)
    requires Complete(rd) && ref >= 0.0
    ensures Outcome(rd, ref, 46) ==> Outcome(rd, ref, 45)
    ensures Outcome(rd, ref, 45) ==> Outcome(rd, ref, 44)
    ensures Outcome(rd, ref, 44) ==> Outcome(rd, ref, 43)
  {
  }

  /**
   * Conditions 43 and 47 in terms of the series: some bar of hours 4..20 has
   * a High above 1.5 * ref, respectively a Low below 0.5 * ref.
   */
  lemma RatioConditionsOnSeries(data: seq<Bar>, ref: real)
    requires AllPresent(data)
    ensures Outcome(ReadingsOf(data), ref, 43) <==>
      exists x :: x in data && 4 <= x.hour <= 20 && x.high > 3.0 / 2.0 * ref
    ensures Outcome(ReadingsOf(data), ref, 47) <==>
      exists x :: x in data && 4 <= x.hour <= 20 && x.low < 1.0 / 2.0 * ref
  {
    PresentInWindow(data, 5, 4, 20);
    WindowHighAbove(data, 4, 20, 3.0 / 2.0 * ref);
    WindowLowBelow(data, 4, 20, 1.0 / 2.0 * ref);
    DayHighFacts(ReadingsOf(data), ref);
  }

  /** A bar whose Open, High, Low and Close are all the same price. */
  predicate Flat(b: Bar) {
    b.open == b.high == b.low == b.close
  }

  /**
   * When every looked-up bar is flat the bar-shape conditions are fixed:
   * keys 16..19 (High != Low of the hour before) and 21, 23, 24, 34, 41
   * fail, while 15, 20, 25, 26, 33 and 42 hold.
   */
  lemma FlatReadings(rd: Readings, ref: real)
    requires Complete(rd)
    requires forall h :: h in rd.bars ==> Flat(rd.bars[h])
    ensures forall id :: id in {16, 17, 18, 19, 21, 23, 24, 34, 41} ==> !Outcome(rd, ref, id)
    ensures forall id :: id in {15, 20, 25, 26, 33, 42} ==> Outcome(rd, ref, id)
  {
    assert Flat(rd.bars[15]) && Flat(rd.bars[16]) && Flat(rd.bars[17]) && Flat(rd.bars[18]);
  }

  /** On a series of flat bars the bar-shape conditions are fixed as in `FlatReadings`. */
  lemma FlatSeries(data: seq<Bar>, ref: real)
    requires AllPresent(data)
    requires forall i :: 0 <= i < |data| ==> Flat(data[i])
    ensures forall id :: id in {16, 17, 18, 19, 21, 23, 24, 34, 41} ==> !Outcome(ReadingsOf(data), ref, id)
    ensures forall id :: id in {15, 20, 25, 26, 33, 42} ==> Outcome(ReadingsOf(data), ref, id)
  {
    var rd := ReadingsOf(data);
    forall h | h in rd.bars ensures Flat(rd.bars[h]) {
      assert rd.bars[h] == At(data, h);
    }
    FlatReadings(rd, ref);
  }

  // ---------------------------------------------------------------------
  // The checkbox labels

  /** The hour the label of id 1..14 names: 5..13 for ids 1..9, 15..19 for ids 10..14. */
  function LabelHour(id: int): (h: int)
    requires 1 <= id <= 14
    ensures IsLoopHour(h) && h != id
  {
    if id <= 9 then id + 4 else id + 5
  }

  /**
   * What the labels of ids 1..19 promise: Close >= Open of the labelled hour
   * for ids 1..14, High != Low of hour `id` for ids 15..19. The labels of
   * ids 20..47 describe the single assignments, which store each one under
   * its own id.
   */
  function Label(rd: Readings, id: int): bool
    requires Complete(rd) && 1 <= id <= 19
  {
    if id <= 14 then rd.bars[LabelHour(id)].close >= rd.bars[LabelHour(id)].open
    else rd.bars[id].high != rd.bars[id].low
  }

  /**
   * The labels of ids 1..10 are computed, but stored under the labelled
   * hour instead of the id.
   */
  lemma CloseOpenLabelsUnderHour(rd: Readings, ref: real, id: int)
    requires Complete(rd) && 1 <= id <= 10
    ensures Outcome(rd, ref, LabelHour(id)) == Label(rd, id)
  {
  }

  /**
   * The labels of ids 15..18 are computed, but stored under `id + 1`; the
   * label of id 19 (stored under 20) is overwritten and the labels of
   * ids 11..14 are overwritten by them.
   */
  lemma HighLowLabelsUnderNextHour(rd: Readings, ref: real, id: int)
    requires Complete(rd) && 15 <= id <= 18
    ensures Outcome(rd, ref, id + 1) == Label(rd, id)
  {
  }
}
