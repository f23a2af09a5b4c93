/**
 * An hourly OHLC bar series for one ticker, in time order, and the pandas
 * selections the evaluator makes on it: the first bar of a given hour
 * (`between_time('hh:00', 'hh:00').iloc[0]`), the bars of an hour window
 * (`between_time(a, b)`, inclusive at both ends, over both days) and the
 * maximum High and minimum Low of a window.
 */
module Bars {
  import opened Wrappers

  /** One hourly bar; `hour` is the hour at which the bar starts. */
  datatype Bar = Bar(hour: int, open: real, high: real, low: real, close: real)

  /** Position of the first bar of hour `h`, or `|data|` when the series has none. */
  function FirstIndex(data: seq<Bar>, h: int): (i: nat)
    ensures i <= |data|
    ensures i < |data| ==> data[i].hour == h
    ensures forall j :: 0 <= j < i ==> data[j].hour != h
  {
    if data == [] then 0
    else if data[0].hour == h then 0
    else 1 + FirstIndex(data[1..], h)
  }

  /**
   * The first bar of hour `h`; `None` where pandas raises an IndexError on
   * `.iloc[0]` of an empty selection.
   */
  function FirstAt(data: seq<Bar>, h: int): (r: Option<Bar>)
    ensures r.None? <==> forall j :: 0 <= j < |data| ==> data[j].hour != h
    ensures r.Some? ==> r.value in data && r.value.hour == h
    ensures r.Some? ==> exists i :: 0 <= i < |data| && data[i] == r.value
                                  && forall j :: 0 <= j < i ==> data[j].hour != h
  {
    var i := FirstIndex(data, h);
    if i < |data| then Some(data[i]) else None
  }

  /** The bars whose hour lies in `[a, b]`, in series order. */
  function Window(data: seq<Bar>, a: int, b: int): (w: seq<Bar>)
    ensures |w| <= |data|
    ensures forall x :: x in w <==> x in data && a <= x.hour <= b
  {
    if data == [] then []
    else
      assert data == [data[0]] + data[1..];
      (if a <= data[0].hour <= b then [data[0]] else []) + Window(data[1..], a, b)
  }

  /** `['High'].max()` of a non-empty selection: an upper bound that some bar attains. */
  function MaxHigh(s: seq<Bar>): (m: real)
    requires s != []
    ensures forall x :: x in s ==> x.high <= m
    ensures exists x :: x in s && x.high == m
  {
    if |s| == 1 then s[0].high
    else
      assert s == [s[0]] + s[1..];
      var rest := MaxHigh(s[1..]);
      if s[0].high >= rest then s[0].high else rest
  }

  /** `['Low'].min()` of a non-empty selection: a lower bound that some bar attains. */
  function MinLow(s: seq<Bar>): (m: real)
    requires s != []
    ensures forall x :: x in s ==> m <= x.low
    ensures exists x :: x in s && x.low == m
  {
    if |s| == 1 then s[0].low
    else
      assert s == [s[0]] + s[1..];
      var rest := MinLow(s[1..]);
      if s[0].low <= rest then s[0].low else rest
  }

  /** A window that covers an hour the series has a bar for is not empty. */
  lemma PresentInWindow(data: seq<Bar>, h: int, a: int, b: int)
    requires FirstAt(data, h).Some? && a <= h <= b
    ensures Window(data, a, b) != []
  {
    assert FirstAt(data, h).value in Window(data, a, b);
  }

  /** Widening a window can only raise its maximum High. */
  lemma WindowMaxMonotone(data: seq<Bar>, a: int, b: int, a': int, b': int)
    requires a' <= a && b <= b'
    requires Window(data, a, b) != []
    ensures Window(data, a', b') != []
    ensures MaxHigh(Window(data, a, b)) <= MaxHigh(Window(data, a', b'))
  {
    var w := Window(data, a, b);
    var m := MaxHigh(w);
    assert exists y :: y in w && y.high == m;
    var x :| x in w && x.high == m;
    assert x in Window(data, a', b');
  }

  /** The highest High over hours a..b exceeds `t` exactly when some bar of those hours has a High above `t`. */
  lemma WindowHighAbove(data: seq<Bar>, a: int, b: int, t: real)
    requires Window(data, a, b) != []
    ensures MaxHigh(Window(data, a, b)) > t <==> exists x :: x in data && a <= x.hour <= b && x.high > t
  {
    var w := Window(data, a, b);
    var m :| m in w && m.high == MaxHigh(w);
    if exists x :: x in data && a <= x.hour <= b && x.high > t {
      var x :| x in data && a <= x.hour <= b && x.high > t;
      assert x in w;
    }
  }

  /** The lowest Low over hours a..b is below `t` exactly when some bar of those hours has a Low below `t`. */
  lemma WindowLowBelow(data: seq<Bar>, a: int, b: int, t: real)
    requires Window(data, a, b) != []
    ensures MinLow(Window(data, a, b)) < t <==> exists x :: x in data && a <= x.hour <= b && x.low < t
  {
    var w := Window(data, a, b);
    var m :| m in w && m.low == MinLow(w);
    if exists x :: x in data && a <= x.hour <= b && x.low < t {
      var x :| x in data && a <= x.hour <= b && x.low < t;
      assert x in w;
    }
  }
}
