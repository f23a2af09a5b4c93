/**
 * The ticker-list parsing of `upload_file`: the file content is stripped and
 * split on commas, each entry is stripped and blank entries are dropped,
 * every entry keeps only the text after its last colon (so an exchange
 * qualifier such as "NASDAQ:" disappears), and a list of more than 50
 * tickers is refused.
 */
module TickerList {
  import opened Wrappers
  import opened Text

  /** The largest list `upload_file` accepts. */
  const MaxTickers: nat := 50

  /** Why a list is refused: it holds `count` tickers, more than `MaxTickers`. */
  datatype UploadError = TooManyTickers(count: nat)

  /** A non-empty text with no white space at either end, as `strip()` leaves it. */
  predicate IsTrimmed(e: string) {
    e != [] && !IsSpace(e[0]) && !IsSpace(e[|e| - 1])
  }

  /** `[x.strip() for x in parts]`. */
  function StripAll(parts: seq<string>): seq<string> {
    seq(|parts|, k requires 0 <= k < |parts| => Strip(parts[k]))
  }

  /** `[x for x in xs if x]`: the non-empty texts, in order. */
  function NonBlank(xs: seq<string>): (r: seq<string>)
    ensures |r| <= |xs|
    ensures forall x :: x in r <==> x in xs && x != []
  {
    if xs == [] then []
    else
      assert xs == [xs[0]] + xs[1..];
      (if xs[0] == [] then [] else [xs[0]]) + NonBlank(xs[1..])
  }

  /** Texts that are all non-empty are all kept. */
  lemma {:induction false} NonBlankAll(xs: seq<string>)
    requires forall k :: 0 <= k < |xs| ==> xs[k] != []
    ensures NonBlank(xs) == xs
  {
    if xs != [] {
      NonBlankAll(xs[1..]);
      assert [xs[0]] + xs[1..] == xs;
    }
  }

  /** Dropping blanks from two lists one after the other is dropping them from the whole: order and repeats are kept. */
  lemma {:induction false} NonBlankAppend(a: seq<string>, b: seq<string>)
    ensures NonBlank(a + b) == NonBlank(a) + NonBlank(b)
  {
    if a == [] {
      assert a + b == b;
    } else {
      assert (a + b)[1..] == a[1..] + b;
      NonBlankAppend(a[1..], b);
    }
  }

  /** `[x.strip() for x in parts if x.strip()]`: the stripped parts, blank ones left out, in order. */
  function Kept(parts: seq<string>): (entries: seq<string>)
    ensures |entries| <= |parts|
  {
    NonBlank(StripAll(parts))
  }

  /** Stripping a concatenation strips each run in turn. */
  lemma StripAllAppend(a: seq<string>, b: seq<string>)
    ensures StripAll(a + b) == StripAll(a) + StripAll(b)
  {
    var l, r := StripAll(a + b), StripAll(a) + StripAll(b);
    forall k | 0 <= k < |a + b|
      ensures l[k] == r[k]
    {
      if k < |a| {
        assert (a + b)[k] == a[k];
      } else {
        assert (a + b)[k] == b[k - |a|];
      }
    }
  }

  /** One part gives its strip, or nothing when that is blank. */
  lemma KeptSingle(x: string)
    ensures Kept([x]) == if Strip(x) == [] then [] else [Strip(x)]
  {
    assert StripAll([x]) == [Strip(x)];
    assert [Strip(x)][1..] == [];
  }

  /**
   * The entries of two runs of parts are those of the first followed by
   * those of the second; with `KeptSingle` this fixes every entry, its
   * order and its repeats.
   */
  lemma KeptAppend(a: seq<string>, b: seq<string>)
    ensures Kept(a + b) == Kept(a) + Kept(b)
  {
    StripAllAppend(a, b);
    NonBlankAppend(StripAll(a), StripAll(b));
  }

  /** Every kept entry is the non-empty strip of some part. */
  lemma KeptFrom(parts: seq<string>, k: nat)
    requires k < |Kept(parts)|
    ensures exists j :: 0 <= j < |parts| && Kept(parts)[k] == Strip(parts[j]) != []
  {
    var stripped := StripAll(parts);
    var e := Kept(parts)[k];
    assert e in stripped;
    var j :| 0 <= j < |parts| && stripped[j] == e;
    assert e == Strip(parts[j]);
  }

  /** Every kept entry is non-empty and stripped. */
  lemma KeptTrimmed(parts: seq<string>)
    ensures forall k :: 0 <= k < |Kept(parts)| ==> IsTrimmed(Kept(parts)[k])
  {
    forall k | 0 <= k < |Kept(parts)|
      ensures IsTrimmed(Kept(parts)[k])
    {
      KeptFrom(parts, k);
    }
  }

  /** A character no part holds is in no entry. */
  lemma KeptWithout(parts: seq<string>, c: char)
    requires forall j :: 0 <= j < |parts| ==> c !in parts[j]
    ensures forall k :: 0 <= k < |Kept(parts)| ==> c !in Kept(parts)[k]
  {
    forall k | 0 <= k < |Kept(parts)|
      ensures c !in Kept(parts)[k]
    {
      KeptFrom(parts, k);
      var j :| 0 <= j < |parts| && Kept(parts)[k] == Strip(parts[j]);
      if c in Strip(parts[j]) {
        StripKeepsCharacters(parts[j], c);
      }
    }
  }

  /** Nothing is kept exactly when every part is blank. */
  lemma KeptBlank(parts: seq<string>)
    ensures Kept(parts) == [] <==> forall j :: 0 <= j < |parts| ==> Strip(parts[j]) == []
  {
    var stripped := StripAll(parts);
    if Kept(parts) != [] {
      KeptFrom(parts, 0);
    }
    forall j | 0 <= j < |parts| && Strip(parts[j]) != []
      ensures Kept(parts) != []
    {
      assert stripped[j] in stripped;
    }
  }

  /** The entries of a file's content: the non-blank comma-separated pieces, stripped. */
  function Entries(content: string): (entries: seq<string>)
    ensures forall k :: 0 <= k < |entries| ==> IsTrimmed(entries[k]) && ',' !in entries[k]
  {
    var parts := Split(Strip(content), ',');
    KeptTrimmed(parts);
    KeptWithout(parts, ',');
    Kept(parts)
  }

  /**
   * `[t.split(":")[-1] for t in entries]`, refused when there are more than
   * `MaxTickers`: every ticker is the text after the last colon of its
   * entry. That text is not stripped again, so "X:" gives the empty ticker.
   */
  function LoadEntries(entries: seq<string>): (r: Result<seq<string>, UploadError>)
    ensures r.Success? <==> |entries| <= MaxTickers
    ensures r == Failure(TooManyTickers(|entries|)) <==> r.Failure?
    ensures r.Success? ==> |r.value| == |entries|
    ensures r.Success? ==> forall k :: 0 <= k < |r.value| ==> IsLastField(entries[k], r.value[k], ':')
  {
    var tickers := seq(|entries|, k requires 0 <= k < |entries| => LastField(entries[k], ':'));
    if |tickers| > MaxTickers then Failure(TooManyTickers(|tickers|)) else Success(tickers)
  }

  /** The list `upload_file` loads from a file's content; no ticker holds a comma. */
  function ParseTickerList(content: string): (r: Result<seq<string>, UploadError>)
    ensures r.Success? ==> |r.value| <= MaxTickers
    ensures r.Success? ==> forall k :: 0 <= k < |r.value| ==> ',' !in r.value[k]
  {
    LoadKeepsWithout(Entries(content), ',');
    LoadEntries(Entries(content))
  }

  /** A character no entry holds is in no ticker loaded from them. */
  lemma LoadKeepsWithout(entries: seq<string>, c: char)
    requires forall k :: 0 <= k < |entries| ==> c !in entries[k]
    ensures LoadEntries(entries).Success? ==>
      forall k :: 0 <= k < |LoadEntries(entries).value| ==> c !in LoadEntries(entries).value[k]
  {
    var r := LoadEntries(entries);
    if r.Success? {
      forall k | 0 <= k < |r.value| ensures c !in r.value[k] {
        if c in r.value[k] {
          LastFieldKeeps(entries[k], r.value[k], ':', c);
        }
      }
    }
  }

  /** Entries without a colon load as they are. */
  lemma LoadWithoutQualifiers(entries: seq<string>)
    requires |entries| <= MaxTickers && forall k :: 0 <= k < |entries| ==> ':' !in entries[k]
    ensures LoadEntries(entries) == Success(entries)
  {
    var r := LoadEntries(entries);
    forall k | 0 <= k < |entries| ensures r.value[k] == entries[k] {
      LastFieldUnique(entries[k], r.value[k], entries[k], ':');
    }
    assert r.value == entries;
  }

  /** A ticker as a clean list holds it: not empty, no comma or colon, no white space at either end. */
  predicate Clean(t: string) {
    IsTrimmed(t) && ',' !in t && ':' !in t
  }

  /** Pieces that are already stripped and non-empty are kept as they are. */
  lemma KeptTrimmedUnchanged(parts: seq<string>)
    requires forall k :: 0 <= k < |parts| ==> IsTrimmed(parts[k])
    ensures Kept(parts) == parts
  {
    forall k | 0 <= k < |parts| ensures StripAll(parts)[k] == parts[k] {
      StripUnchanged(parts[k]);
    }
    assert StripAll(parts) == parts;
    NonBlankAll(parts);
  }

  /** A list of stripped, non-empty texts joined by a separator is its own `strip()`. */
  lemma StripJoinOfTrimmed(ts: seq<string>, sep: char)
    requires |ts| >= 1 && IsTrimmed(ts[0]) && IsTrimmed(ts[|ts| - 1])
    ensures Strip(Join(ts, sep)) == Join(ts, sep)
  {
    var s := Join(ts, sep);
    JoinStartsWithFirst(ts, sep);
    JoinEndsWithLast(ts, sep);
    var first, last := ts[0], ts[|ts| - 1];
    assert s[0] == first[0];
    assert s[|s| - 1] == last[|last| - 1];
    StripUnchanged(s);
  }

  /** The entries of a comma-joined list of clean tickers are those tickers. */
  lemma EntriesOfJoin(ts: seq<string>)
    requires |ts| >= 1 && forall k :: 0 <= k < |ts| ==> Clean(ts[k])
    ensures Entries(Join(ts, ',')) == ts
  {
    StripJoinOfTrimmed(ts, ',');
    SplitJoin(ts, ',');
    KeptTrimmedUnchanged(ts);
  }

  /** Writing a list of at most 50 clean tickers comma-separated and loading it gives the list back. */
  lemma ParseJoinRoundTrip(ts: seq<string>)
    requires 1 <= |ts| <= MaxTickers && forall k :: 0 <= k < |ts| ==> Clean(ts[k])
    ensures ParseTickerList(Join(ts, ',')) == Success(ts)
  {
    EntriesOfJoin(ts);
    LoadWithoutQualifiers(ts);
  }

  /** A list of more than 50 clean tickers is refused, whatever they are. */
  lemma TooManyRefused(ts: seq<string>)
    requires |ts| > MaxTickers && forall k :: 0 <= k < |ts| ==> Clean(ts[k])
    ensures ParseTickerList(Join(ts, ',')) == Failure(TooManyTickers(|ts|))
  {
    EntriesOfJoin(ts);
  }

  /** A content of white space only loads the empty list. */
  lemma BlankContent(content: string)
    requires forall k :: 0 <= k < |content| ==> IsSpace(content[k])
    ensures ParseTickerList(content) == Success([])
  {
    StripBlank(content);
    assert Split([], ',') == [[]];
    assert Strip([]) == [];
    KeptBlank([[]]);
    assert Entries(content) == [];
  }

  /** A single entry loads the text after its last colon. */
  lemma LoadSingle(s: string, t: string)
    requires IsLastField(s, t, ':')
    ensures LoadEntries([s]) == Success([t])
  {
    var r := LoadEntries([s]);
    LastFieldUnique(s, r.value[0], t, ':');
    assert r.value == [t];
  }

  /** A content without commas and without white space at either end is a single entry. */
  lemma SingleEntry(s: string)
    requires IsTrimmed(s) && ',' !in s
    ensures Entries(s) == [s]
  {
    StripUnchanged(s);
    SplitWithoutSeparator(s, ',');
    KeptTrimmedUnchanged([s]);
  }

  /**
   * An exchange qualifier before the last colon is dropped, and nothing
   * after it is stripped: "NASDAQ:AAPL" loads "AAPL" and "X:" loads "".
   */
  lemma QualifierDropped(q: string, t: string)
    requires ',' !in q && ',' !in t && ':' !in t
    requires q == [] || !IsSpace(q[0])
    requires t == [] || !IsSpace(t[|t| - 1])
    ensures ParseTickerList(q + [':'] + t) == Success([t])
  {
    var s := q + [':'] + t;
    assert s[0] == (if q == [] then ':' else q[0]);
    assert s[|s| - 1] == (if t == [] then ':' else t[|t| - 1]);
    SingleEntry(s);
    LastFieldAfterSeparator(q, t, ':');
    LoadSingle(s, t);
  }
}
