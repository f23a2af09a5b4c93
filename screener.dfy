/**
 * The screener object: the loaded ticker list, the ticker selection (a
 * dictionary from each ticker to whether its checkbox is checked) and the
 * matches of the last run. `UploadFile` loads a list,
 * `PopulateTickerSelection` rebuilds the selection, `RunScreener` screens
 * the checked tickers and `SaveResults` gives the lines of the result file.
 */
module Screener {
  import opened Wrappers
  import opened Bars
  import opened Conditions
  import opened TickerList
  import opened Report

  // ---------------------------------------------------------------------
  // The ticker selection: an insertion-ordered dictionary

  /** The keys of a dictionary, in insertion order. */
  function Keys(vars: seq<(string, bool)>): (keys: seq<string>)
    ensures |keys| == |vars| && forall i :: 0 <= i < |vars| ==> keys[i] == vars[i].0
  {
    seq(|vars|, i requires 0 <= i < |vars| => vars[i].0)
  }

  /** No ticker appears twice. */
  predicate Distinct(keys: seq<string>) {
    forall i, j :: 0 <= i < j < |keys| ==> keys[i] != keys[j]
  }

  /** Every ticker of the selection is checked. */
  predicate AllChecked(vars: seq<(string, bool)>) {
    forall i :: 0 <= i < |vars| ==> vars[i].1
  }

  /**
   * `d[key] = v`: an existing entry keeps its place and takes the new
   * value, a new key goes at the end; no other entry changes.
   */
  function Assign(vars: seq<(string, bool)>, key: string, v: bool): (r: seq<(string, bool)>)
    ensures key in Keys(vars) ==> Keys(r) == Keys(vars)
    ensures key !in Keys(vars) ==> Keys(r) == Keys(vars) + [key]
    ensures forall i :: 0 <= i < |vars| && vars[i].0 != key ==> r[i] == vars[i]
    ensures forall i :: 0 <= i < |r| && r[i].0 == key ==> r[i].1 == v
  {
    if key in Keys(vars) then
      seq(|vars|, i requires 0 <= i < |vars| => if vars[i].0 == key then (key, v) else vars[i])
    else vars + [(key, v)]
  }

  /**
   * The distinct tickers in order of first appearance: the keys a
   * dictionary gets when each ticker is assigned in turn.
   */
  function Dedup(ts: seq<string>): (d: seq<string>)
    ensures Distinct(d)
    ensures forall t :: t in d <==> t in ts
  {
    if ts == [] then []
    else
      var d, t := Dedup(ts[..|ts| - 1]), ts[|ts| - 1];
      assert ts == ts[..|ts| - 1] + [t];
      if t in d then d else d + [t]
  }

  /** Where `t` first appears in `ts`. */
  function FirstPosition(ts: seq<string>, t: string): (i: nat)
    requires t in ts
    ensures i < |ts| && ts[i] == t
    ensures forall j :: 0 <= j < i ==> ts[j] != t
  {
    if ts[0] == t then 0 else 1 + FirstPosition(ts[1..], t)
  }

  /** Adding a ticker at the end does not move where an earlier one first appears. */
  lemma FirstPositionAppend(ts: seq<string>, t: string, x: string)
    requires x in ts
    ensures FirstPosition(ts + [t], x) == FirstPosition(ts, x)
  {
    var p, q := FirstPosition(ts, x), FirstPosition(ts + [t], x);
    assert (ts + [t])[p] == x;
    assert q <= p;
    assert ts[q] == x;
  }

  /**
   * `Dedup` lists the tickers in the order in which they first appear:
   * with `Distinct` and the membership of its contract this fixes it.
   */
  lemma {:induction false} DedupFirstAppearance(ts: seq<string>)
    ensures forall i, j :: 0 <= i < j < |Dedup(ts)| ==>
      FirstPosition(ts, Dedup(ts)[i]) < FirstPosition(ts, Dedup(ts)[j])
  {
    if ts != [] {
      var init, t := ts[..|ts| - 1], ts[|ts| - 1];
      assert ts == init + [t];
      var d := Dedup(init);
      DedupFirstAppearance(init);
      forall x | x in init
        ensures FirstPosition(ts, x) == FirstPosition(init, x)
      {
        FirstPositionAppend(init, t, x);
      }
      if t !in init {
        assert FirstPosition(ts, t) == |init|;
        assert Dedup(ts) == d + [t];
      }
    }
  }

  /** A list without repeated tickers is its own `Dedup`. */
  lemma {:induction false} DedupDistinct(ts: seq<string>)
    requires Distinct(ts)
    ensures Dedup(ts) == ts
  {
    if ts != [] {
      var init := ts[..|ts| - 1];
      assert Distinct(init);
      DedupDistinct(init);
      assert ts[|ts| - 1] !in init;
      assert init + [ts[|ts| - 1]] == ts;
    }
  }

  /** `[ticker for ticker, var in ticker_vars.items() if var.get()]`. */
  function SelectedTickers(vars: seq<(string, bool)>): (sel: seq<string>)
    ensures |sel| <= |vars|
    ensures forall t :: t in sel <==> exists i :: 0 <= i < |vars| && vars[i] == (t, true)
  {
    if vars == [] then []
    else
      var init, last := vars[..|vars| - 1], vars[|vars| - 1];
      assert forall i :: 0 <= i < |init| ==> init[i] == vars[i];
      SelectedTickers(init) + if last.1 then [last.0] else []
  }

  /** One entry is selected exactly when it is checked. */
  lemma SelectedSingle(v: (string, bool))
    ensures SelectedTickers([v]) == if v.1 then [v.0] else []
  {
    assert [v][..0] == [];
  }

  /**
   * The selection of two runs of entries is that of the first followed by
   * that of the second; with `SelectedSingle` this fixes the selection,
   * its order included.
   */
  lemma {:induction false} SelectedAppend(a: seq<(string, bool)>, b: seq<(string, bool)>)
    ensures SelectedTickers(a + b) == SelectedTickers(a) + SelectedTickers(b)
  {
    if b == [] {
      assert a + b == a;
    } else {
      var init, last := b[..|b| - 1], b[|b| - 1];
      assert (a + b)[..|a + b| - 1] == a + init;
      assert (a + b)[|a + b| - 1] == last;
      SelectedAppend(a, init);
    }
  }

  /** With every ticker checked, the selection is the whole list in order. */
  lemma {:induction false} AllCheckedSelectsAll(vars: seq<(string, bool)>)
    requires AllChecked(vars)
    ensures SelectedTickers(vars) == Keys(vars)
  {
    if vars != [] {
      var init := vars[..|vars| - 1];
      assert Keys(vars) == Keys(init) + [vars[|vars| - 1].0];
      AllCheckedSelectsAll(init);
    }
  }

  /** With no ticker checked, the selection is empty. */
  lemma {:induction false} NoneCheckedSelectsNone(vars: seq<(string, bool)>)
    requires forall i :: 0 <= i < |vars| ==> !vars[i].1
    ensures SelectedTickers(vars) == []
  {
    if vars != [] {
      NoneCheckedSelectsNone(vars[..|vars| - 1]);
    }
  }

  /** Checking a selection of distinct tickers selects each of them at most once. */
  lemma {:induction false} SelectedDistinct(vars: seq<(string, bool)>)
    requires Distinct(Keys(vars))
    ensures Distinct(SelectedTickers(vars))
  {
    if vars != [] {
      var init, last := vars[..|vars| - 1], vars[|vars| - 1];
      assert Keys(init) == Keys(vars)[..|vars| - 1];
      SelectedDistinct(init);
      if last.0 in SelectedTickers(init) {
        var i :| 0 <= i < |init| && init[i] == (last.0, true);
      }
    }
  }

  // ---------------------------------------------------------------------
  // Screening

  /**
   * A ticker matches: the provider gives it a non-empty series, which passes
   * the enabled conditions with the first bar's Open as reference price.
   */
  predicate Accepts(provider: string -> seq<Bar>, enabled: set<int>, t: string) {
    var df := provider(t);
    df != [] && Passes(df, df[0].open, enabled)
  }

  /** The matching tickers of `selected`, each with its reference price, in order. */
  function Matching(selected: seq<string>, provider: string -> seq<Bar>, enabled: set<int>): (ms: seq<(string, real)>)
    ensures |ms| <= |selected|
  {
    if selected == [] then []
    else
      var init, t := selected[..|selected| - 1], selected[|selected| - 1];
      var ms := Matching(init, provider, enabled);
      if Accepts(provider, enabled, t) then ms + [(t, provider(t)[0].open)] else ms
  }

  /** Every match is a selected ticker that matches, with its first bar's Open. */
  lemma {:induction false} MatchingSound(selected: seq<string>, provider: string -> seq<Bar>, enabled: set<int>, k: nat)
    requires k < |Matching(selected, provider, enabled)|
    ensures var m := Matching(selected, provider, enabled)[k];
      m.0 in selected && Accepts(provider, enabled, m.0) && m.1 == provider(m.0)[0].open
  {
    var init, t := selected[..|selected| - 1], selected[|selected| - 1];
    assert selected == init + [t];
    if k < |Matching(init, provider, enabled)| {
      MatchingSound(init, provider, enabled, k);
    }
  }

  /** Every selected ticker that matches is among the matches. */
  lemma {:induction false} MatchingComplete(selected: seq<string>, provider: string -> seq<Bar>, enabled: set<int>, t: string)
    requires t in selected && Accepts(provider, enabled, t)
    ensures exists k :: 0 <= k < |Matching(selected, provider, enabled)| && Matching(selected, provider, enabled)[k].0 == t
  {
    var init, last := selected[..|selected| - 1], selected[|selected| - 1];
    var ms := Matching(selected, provider, enabled);
    if t == last {
      assert ms[|ms| - 1].0 == t;
    } else {
      assert t in init by { assert selected == init + [last]; }
      MatchingComplete(init, provider, enabled, t);
      var k :| 0 <= k < |Matching(init, provider, enabled)| && Matching(init, provider, enabled)[k].0 == t;
      assert ms[k].0 == t;
    }
  }

  /** Screening two lists one after the other gives the matches of the first, then those of the second. */
  lemma {:induction false} MatchingAppend(s1: seq<string>, s2: seq<string>, provider: string -> seq<Bar>, enabled: set<int>)
    ensures Matching(s1 + s2, provider, enabled) == Matching(s1, provider, enabled) + Matching(s2, provider, enabled)
  {
    if s2 != [] {
      var init := s2[..|s2| - 1];
      MatchingAppend(s1, init, provider, enabled);
      assert (s1 + s2)[..|s1 + s2| - 1] == s1 + init;
    } else {
      assert s1 + s2 == s1;
    }
  }

  /** Ranks 1, 2, ... given in order. */
  function Ranked(ms: seq<(string, real)>): (r: seq<Match>)
    ensures |r| == |ms|
  {
    if ms == [] then []
    else
      var last := ms[|ms| - 1];
      Ranked(ms[..|ms| - 1]) + [Match(|ms|, last.0, last.1)]
  }

  /** Every match carries its position plus one as rank. */
  predicate RanksInOrder(results: seq<Match>) {
    forall k :: 0 <= k < |results| ==> results[k].rank == k + 1
  }

  /** Screening one more ticker adds it at the end when it matches. */
  lemma MatchingStep(selected: seq<string>, i: nat, provider: string -> seq<Bar>, enabled: set<int>)
    requires i < |selected|
    ensures Matching(selected[..i + 1], provider, enabled) ==
      Matching(selected[..i], provider, enabled) +
      if Accepts(provider, enabled, selected[i]) then [(selected[i], provider(selected[i])[0].open)] else []
  {
    assert selected[..i + 1][..i] == selected[..i];
  }

  /** A match found next gets the next rank. */
  lemma RankedAppend(ms: seq<(string, real)>, t: string, p: real)
    ensures Ranked(ms + [(t, p)]) == Ranked(ms) + [Match(|ms| + 1, t, p)]
  {
    assert (ms + [(t, p)])[..|ms|] == ms;
  }

  /** Ranking numbers the matches 1, 2, ... and keeps their tickers and prices. */
  lemma {:induction false} RankedInOrder(ms: seq<(string, real)>)
    ensures RanksInOrder(Ranked(ms))
    ensures forall k :: 0 <= k < |ms| ==> Ranked(ms)[k].ticker == ms[k].0 && Ranked(ms)[k].open == ms[k].1
  {
    if ms != [] {
      var init := ms[..|ms| - 1];
      RankedInOrder(init);
      assert forall k :: 0 <= k < |init| ==> init[k] == ms[k];
    }
  }

  /** Ranks in order are strictly increasing, so sorting by rank leaves the list as it is. */
  lemma RanksIncreasing(results: seq<Match>)
    requires RanksInOrder(results)
    ensures forall i, j :: 0 <= i < j < |results| ==> results[i].rank < results[j].rank
  {
  }

  /** With no condition enabled a ticker matches exactly when its series is not empty and every looked-up hour is present. */
  lemma NothingEnabledAccepts(provider: string -> seq<Bar>, t: string)
    ensures Accepts(provider, {}, t) <==> provider(t) != [] && AllPresent(provider(t))
  {
  }

  /**
   * With only condition 43 enabled a ticker matches exactly when its series
   * has every looked-up hour and a bar of hours 4..20 whose High exceeds
   * 1.5 times the first bar's Open.
   */
  lemma OnlyCondition43(provider: string -> seq<Bar>, t: string)
    ensures Accepts(provider, {43}, t) <==>
      var df := provider(t);
      df != [] && AllPresent(df) &&
      exists x :: x in df && 4 <= x.hour <= 20 && x.high > 3.0 / 2.0 * df[0].open
  {
    var df := provider(t);
    if df != [] && AllPresent(df) {
      RatioConditionsOnSeries(df, df[0].open);
      assert Passes(df, df[0].open, {43}) <==> Outcome(ReadingsOf(df), df[0].open, 43);
    }
  }

  /** A ticker whose series lacks a looked-up hour never matches. */
  lemma MissingHourRejects(provider: string -> seq<Bar>, enabled: set<int>, t: string, h: int)
    requires IsLoopHour(h) && FirstAt(provider(t), h).None?
    ensures !Accepts(provider, enabled, t)
  {
    MissingBarFails(provider(t), if provider(t) == [] then 0.0 else provider(t)[0].open, enabled, h);
  }

  /**
   * The body of the ticker loop of `run_screener`: the ticker's series is
   * fetched; an empty one is skipped; otherwise its first bar's Open is the
   * reference price, returned when the series passes the enabled conditions.
   */
  method ScreenTicker(provider: string -> seq<Bar>, enabled: set<int>, ticker: string) returns (found: Option<real>)
    ensures found.Some? <==> Accepts(provider, enabled, ticker)
    ensures found.Some? ==> found.value == provider(ticker)[0].open
  {
    var df := provider(ticker);
    if df == [] {
      return None;
    }
    var open16h := df[0].open;
    var pass := EvaluateConditions(df, open16h, enabled);
    found := if pass then Some(open16h) else None;
  }

  // ---------------------------------------------------------------------
  // The screener object

  class StockScreenerApp {
    /** The loaded ticker list. */
    var tickers: seq<string>
    /** The ticker selection: each ticker with whether its checkbox is checked. */
    var tickerVars: seq<(string, bool)>
    /** The matches of the last run, in the order found. */
    var results: seq<Match>

    ghost predicate Valid()
      reads this
    {
      |tickers| <= MaxTickers && Distinct(Keys(tickerVars)) && RanksInOrder(results)
    }

    constructor ()
      ensures Valid() && tickers == [] && tickerVars == [] && results == []
    {
      tickers, tickerVars, results := [], [], [];
    }

    /**
     * `upload_file` once the file is read: a list of more than 50 tickers
     * is refused and changes nothing; otherwise it becomes the ticker list
     * and the selection is rebuilt with every ticker checked.
     */
    method UploadFile(content: string) returns (r: Result<seq<string>, UploadError>)
      requires Valid()
      modifies this`tickers, this`tickerVars
      ensures Valid()
      ensures r == ParseTickerList(content)
      ensures r.Failure? ==> tickers == old(tickers) && tickerVars == old(tickerVars)
      ensures r.Success? ==> tickers == r.value && Keys(tickerVars) == Dedup(tickers) && AllChecked(tickerVars)
    {
      r := ParseTickerList(content);
      if r.Failure? {
        return;
      }
      tickers := r.value;
      PopulateTickerSelection();
      assert Distinct(Keys(tickerVars));
    }

    /**
     * `populate_ticker_selection`: a fresh dictionary with every ticker of
     * the list checked, in order of first appearance; a repeated ticker
     * keeps its first place.
     */
    method PopulateTickerSelection()
      requires Valid()
      modifies this`tickerVars
      ensures Valid()
      ensures Keys(tickerVars) == Dedup(tickers) && AllChecked(tickerVars)
    {
      tickerVars := [];
      for i := 0 to |tickers|
        invariant Keys(tickerVars) == Dedup(tickers[..i]) && AllChecked(tickerVars)
      {
        assert tickers[..i + 1][..i] == tickers[..i];
        tickerVars := Assign(tickerVars, tickers[i], true);
      }
      assert tickers[..|tickers|] == tickers;
    }

    /** `select_all_tickers`: checks every ticker. */
    method SelectAllTickers()
      requires Valid()
      modifies this`tickerVars
      ensures Valid()
      ensures Keys(tickerVars) == Keys(old(tickerVars)) && AllChecked(tickerVars)
    {
      for i := 0 to |tickerVars|
        invariant Keys(tickerVars) == Keys(old(tickerVars))
        invariant forall j :: 0 <= j < i ==> tickerVars[j].1
      {
        tickerVars := tickerVars[i := (tickerVars[i].0, true)];
      }
    }

    /** `unselect_all_tickers`: unchecks every ticker, so a run screens nothing. */
    method UnselectAllTickers()
      requires Valid()
      modifies this`tickerVars
      ensures Valid()
      ensures Keys(tickerVars) == Keys(old(tickerVars)) && SelectedTickers(tickerVars) == []
    {
      for i := 0 to |tickerVars|
        invariant Keys(tickerVars) == Keys(old(tickerVars))
        invariant forall j :: 0 <= j < i ==> !tickerVars[j].1
      {
        tickerVars := tickerVars[i := (tickerVars[i].0, false)];
      }
      NoneCheckedSelectsNone(tickerVars);
    }

    /**
     * The ticker loop of `run_screener`: each checked ticker is screened in
     * selection order and a match is appended with rank
     * `len(results) + 1`. The run ends by saving the results.
     */
    method RunScreener(provider: string -> seq<Bar>, enabled: set<int>) returns (lines: seq<string>)
      requires Valid()
      modifies this`results
      ensures Valid()
      ensures results == Ranked(Matching(SelectedTickers(tickerVars), provider, enabled))
      ensures lines == Render(results)
    {
      results := [];
      var selected := SelectedTickers(tickerVars);
      for i := 0 to |selected|
        invariant results == Ranked(Matching(selected[..i], provider, enabled))
      {
        var ticker := selected[i];
        MatchingStep(selected, i, provider, enabled);
        var found := ScreenTicker(provider, enabled, ticker);
        ghost var ms := Matching(selected[..i], provider, enabled);
        if found.Some? {
          RankedAppend(ms, ticker, found.value);
          assert |results| == |ms|;
          results := results + [Match(|results| + 1, ticker, found.value)];
          assert results == Ranked(ms + [(ticker, found.value)]);
          assert Matching(selected[..i + 1], provider, enabled) == ms + [(ticker, found.value)];
        } else {
          assert Matching(selected[..i + 1], provider, enabled) == ms;
        }
      }
      assert selected[..|selected|] == selected;
      RankedInOrder(Matching(selected, provider, enabled));
      lines := SaveResults();
    }

    /**
     * `reset`: the ticker list, the selection and the matches are emptied;
     * the state is then that of a fresh screener.
     */
    method Reset()
      modifies this
      ensures Valid() && tickers == [] && tickerVars == [] && results == []
      ensures SelectedTickers(tickerVars) == [] && Render(results) == [Header]
    {
      tickers, tickerVars, results := [], [], [];
    }

    /** `save_results`: the header, then one line per match in rank order. */
    method SaveResults() returns (lines: seq<string>)
      requires Valid()
      ensures lines == Render(results)
    {
      RanksIncreasing(results);
      lines := [Header];
      for k := 0 to |results|
        invariant lines == Render(results[..k])
      {
        assert results[..k + 1][..k] == results[..k];
        lines := lines + [FormatLine(results[k])];
      }
      assert results[..|results|] == results;
    }
  }
}
