/**
 * The message boundary of an exported chat transcript, recognised by hand:
 *
 *   \d{1,2}/\d{1,2}/\d{2,4},\s\d{1,2}:\d{2}\s?(?:AM|PM|am|pm|a.m.|p.m.)?\s?-\s
 *
 * `Recognise` follows the backtracking order of Python's `re` engine for this
 * one pattern (greedy counted digits, `\s?` tried with the space first, the
 * marker alternatives left to right and then the empty one), so it picks the
 * same match at a given start. `Search`, `ReSplit` and `FindAll` are the
 * leftmost-first, non-overlapping scans of `re.split` and `re.findall`.
 */
module Boundary {
  import opened Common
  import opened Text
  import Scan

  /** The marker alternatives in the order they are tried; `.` is the unescaped regex dot. */
  const Markers: seq<string> := ["AM", "PM", "am", "pm", "a.m.", "p.m."]

  /** A pattern character against a text character: `.` matches anything but a newline. */
  predicate CharMatches(c: char, p: char) {
    if p == '.' then c != '\n' else c == p
  }

  /** The alternative `alt` matches `s` at position `q`. */
  predicate MarkerAt(s: string, q: nat, alt: string) {
    q + |alt| <= |s| && Fits(s[q..q + |alt|], alt)
  }

  /** The text `t` matches the alternative `alt` character by character. */
  predicate Fits(t: string, alt: string)
    decreases alt
  {
    |t| == |alt| && (alt == [] || (CharMatches(t[0], alt[0]) && Fits(t[1..], alt[1..])))
  }

  // ---------------------------------------------------------------------
  // The language of the pattern, stated declaratively.

  /** `s[lo..hi]` is a run of `min` to `max` digits. */
  predicate DigitGroup(s: string, lo: nat, hi: nat, min: nat, max: nat) {
    lo + min <= hi <= lo + max && hi <= |s| && forall k {:trigger IsDigit(s[k])} :: lo <= k < hi ==> IsDigit(s[k])
  }

  /** `s[lo..hi]` matches `\s?`. */
  predicate OptSpace(s: string, lo: nat, hi: nat) {
    hi == lo || (hi == lo + 1 && lo < |s| && IsSpace(s[lo]))
  }

  /** `s[lo..hi]` matches `(?:AM|PM|am|pm|a.m.|p.m.)?`. */
  predicate OptMarker(s: string, lo: nat, hi: nat) {
    hi == lo || exists k :: 0 <= k < |Markers| && hi == lo + |Markers[k]| && MarkerAt(s, lo, Markers[k])
  }

  /** `s[q..q+2]` matches `-\s`. */
  predicate DashAt(s: string, q: nat) {
    q + 1 < |s| && s[q] == '-' && IsSpace(s[q + 1])
  }

  /**
   * Where the pieces of one match lie: `day`, `month`, `year` and `hour` are
   * the positions of the `/`, `/`, `,` and `:` that end the digit groups (the
   * minutes are the two characters after `hour`), `space1`, `marker` and
   * `space2` are the ends of the two optional spaces and of the marker, and
   * `end` is where the match ends.
   */
  datatype Parts = Parts(day: nat, month: nat, year: nat, hour: nat,
                         space1: nat, marker: nat, space2: nat, end: nat)

  /** `\d{1,2}/\d{1,2}/\d{2,4},` at `i`, the groups ending at `day`, `month` and `year`. */
  predicate DateAt(s: string, i: nat, day: nat, month: nat, year: nat) {
    && DigitGroup(s, i, day, 1, 2) && day < |s| && s[day] == '/'
    && DigitGroup(s, day + 1, month, 1, 2) && month < |s| && s[month] == '/'
    && DigitGroup(s, month + 1, year, 2, 4) && year < |s| && s[year] == ','
  }

  /** `\s\d{1,2}:\d{2}` after the comma at `year`, the hour group ending at `hour`. */
  predicate TimeAt(s: string, year: nat, hour: nat) {
    && year + 1 < |s| && IsSpace(s[year + 1])
    && DigitGroup(s, year + 2, hour, 1, 2) && hour < |s| && s[hour] == ':'
    && DigitGroup(s, hour + 1, hour + 3, 2, 2)
  }

  /** `\s?(?:…)?\s?-\s` at `q`, the pieces ending at `space1`, `marker` and `space2`. */
  predicate TailFrom(s: string, q: nat, space1: nat, marker: nat, space2: nat) {
    OptSpace(s, q, space1) && OptMarker(s, space1, marker) && OptSpace(s, marker, space2) && DashAt(s, space2)
  }

  /** `s[i..p.end]` is a word of the boundary pattern, cut into pieces at `p`. */
  predicate Valid(s: string, i: nat, p: Parts) {
    && DateAt(s, i, p.day, p.month, p.year)
    && TimeAt(s, p.year, p.hour)
    && TailFrom(s, p.hour + 3, p.space1, p.marker, p.space2)
    && p.end == p.space2 + 2
  }

  // ---------------------------------------------------------------------
  // The recogniser.

  /** How many digits a greedy `\d{1,max}` takes at `i` before backtracking. */
  function DigitRun(s: string, i: nat, max: nat): (n: nat)
    requires i <= |s|
    ensures n <= max && i + n <= |s|
    ensures forall k :: i <= k < i + n ==> IsDigit(s[k])
    ensures n == max || i + n == |s| || !IsDigit(s[i + n])
    decreases max
  {
    if max == 0 || i == |s| || !IsDigit(s[i]) then 0 else 1 + DigitRun(s, i + 1, max - 1)
  }

  /**
   * `\d{min,max}` at `lo` followed by the non-digit `sep`: the position of `sep`.
   * Only the greedy count can be followed by `sep`, so backtracking never helps.
   */
  function Group(s: string, lo: nat, min: nat, max: nat, sep: char): (r: Option<nat>)
    requires lo <= |s|
    requires !IsDigit(sep)
    ensures r.Some? ==> DigitGroup(s, lo, r.value, min, max) && r.value < |s| && s[r.value] == sep
    ensures forall hi: nat :: DigitGroup(s, lo, hi, min, max) && hi < |s| && s[hi] == sep ==> r == Some(hi)
  {
    var n := DigitRun(s, lo, max);
    if min <= n && lo + n < |s| && s[lo + n] == sep then Some(lo + n) else None
  }

  /** `\s?-\s` at `m`: the position of the dash, the space taken first when it leads to a match. */
  function SpaceDash(s: string, m: nat): (r: Option<nat>)
    ensures r.Some? ==> OptSpace(s, m, r.value) && DashAt(s, r.value)
    ensures (exists d :: OptSpace(s, m, d) && DashAt(s, d)) ==> r.Some?
  {
    if m < |s| && IsSpace(s[m]) && DashAt(s, m + 1) then Some(m + 1)
    else if DashAt(s, m) then Some(m)
    else None
  }

  /** The marker alternative `alt` at `q`, then `\s?-\s`: the end of the marker and the position of the dash. */
  function Alternative(s: string, q: nat, alt: string): (r: Option<(nat, nat)>)
    ensures r.Some? ==> MarkerAt(s, q, alt) && r.value.0 == q + |alt| && OptSpace(s, r.value.0, r.value.1) && DashAt(s, r.value.1)
    ensures MarkerAt(s, q, alt) && (exists d :: OptSpace(s, q + |alt|, d) && DashAt(s, d)) ==> r.Some?
  {
    var d := SpaceDash(s, q + |alt|);
    if MarkerAt(s, q, alt) && d.Some? then Some((q + |alt|, d.value)) else None
  }

  /** Regex alternation: the first branch that matches. */
  function Or(a: Option<(nat, nat)>, b: Option<(nat, nat)>): Option<(nat, nat)> {
    if a.Some? then a else b
  }

  /** The empty marker alternative at `q`, then `\s?-\s`. */
  function NoMarker(s: string, q: nat): (r: Option<(nat, nat)>)
    ensures r.Some? ==> r.value.0 == q && OptSpace(s, q, r.value.1) && DashAt(s, r.value.1)
    ensures (exists d :: OptSpace(s, q, d) && DashAt(s, d)) ==> r.Some?
  {
    var d := SpaceDash(s, q);
    if d.Some? then Some((q, d.value)) else None
  }

  /**
   * `(?:AM|PM|am|pm|a.m.|p.m.)?\s?-\s` at `q`, the alternatives tried left to
   * right and then the empty one: the end of the marker and the position of the dash.
   */
  function MarkerFrom(s: string, q: nat): (r: Option<(nat, nat)>)
    ensures r.Some? ==> OptMarker(s, q, r.value.0) && OptSpace(s, r.value.0, r.value.1) && DashAt(s, r.value.1)
  {
    var r := Or(Alternative(s, q, Markers[0]), Or(Alternative(s, q, Markers[1]), Or(Alternative(s, q, Markers[2]),
             Or(Alternative(s, q, Markers[3]), Or(Alternative(s, q, Markers[4]), Or(Alternative(s, q, Markers[5]),
             NoMarker(s, q)))))));
    assert r.Some? ==> OptMarker(s, q, r.value.0) by {
      if r.Some? && r.value.0 != q {
        assert exists k :: 0 <= k < |Markers| && Alternative(s, q, Markers[k]) == r;
      }
    }
    r
  }

  /** `\s?(?:…)?\s?-\s` at `p`: the ends of the first space, of the marker, and the dash. */
  function TailAt(s: string, p: nat): (r: Option<(nat, nat, nat)>)
    ensures r.Some? ==> TailFrom(s, p, r.value.0, r.value.1, r.value.2)
  {
    var withSpace := MarkerFrom(s, p + 1);
    if p < |s| && IsSpace(s[p]) && withSpace.Some? then
      Some((p + 1, withSpace.value.0, withSpace.value.1))
    else
      var without := MarkerFrom(s, p);
      if without.Some? then Some((p, without.value.0, without.value.1)) else None
  }

  /** The date at `i`: where its three digit groups end. */
  function DateFrom(s: string, i: nat): (r: Option<(nat, nat, nat)>)
    requires i <= |s|
    ensures r.Some? ==> DateAt(s, i, r.value.0, r.value.1, r.value.2)
  {
    var day := Group(s, i, 1, 2, '/');
    if day.None? then None else
    var month := Group(s, day.value + 1, 1, 2, '/');
    if month.None? then None else
    var year := Group(s, month.value + 1, 2, 4, ',');
    if year.None? then None else
    Some((day.value, month.value, year.value))
  }

  /** The time after the comma at `year`: where its hour group ends. */
  function HourFrom(s: string, year: nat): (r: Option<nat>)
    ensures r.Some? ==> TimeAt(s, year, r.value)
  {
    if !(year + 1 < |s| && IsSpace(s[year + 1])) then None else
    var hour := Group(s, year + 2, 1, 2, ':');
    if hour.None? || DigitRun(s, hour.value + 1, 2) < 2 then None else
    hour
  }

  /** The match the regex engine finds when it tries the pattern at `i`, cut into its pieces. */
  function Recognise(s: string, i: nat): Option<Parts>
    requires i <= |s|
  {
    match DateFrom(s, i)
    case None => None
    case Some((day, month, year)) => AfterDate(s, i, day, month, year)
  }

  /** The rest of the match once the date has matched: the time, then the tail. */
  function AfterDate(s: string, i: nat, day: nat, month: nat, year: nat): Option<Parts> {
    match HourFrom(s, year)
    case None => None
    case Some(hour) => AfterTime(s, i, day, month, year, hour)
  }

  /** The rest of the match once the date and the time have matched: the tail. */
  function AfterTime(s: string, i: nat, day: nat, month: nat, year: nat, hour: nat): Option<Parts> {
    match TailAt(s, hour + 3)
    case None => None
    case Some((space1, marker, space2)) => Some(Parts(day, month, year, hour, space1, marker, space2, space2 + 2))
  }

  /** What the recogniser finds is a match of the pattern. */
  lemma RecogniseSound(s: string, i: nat)
    requires i <= |s|
    ensures Recognise(s, i).Some? ==> Valid(s, i, Recognise(s, i).value)
  {
    var date := DateFrom(s, i);
    if date.Some? {
      AfterDateSound(s, i, date.value.0, date.value.1, date.value.2);
    }
  }

  lemma AfterDateSound(s: string, i: nat, day: nat, month: nat, year: nat)
    requires DateAt(s, i, day, month, year)
    ensures AfterDate(s, i, day, month, year).Some? ==> Valid(s, i, AfterDate(s, i, day, month, year).value)
  {
    var hour := HourFrom(s, year);
    if hour.Some? {
      AfterTimeSound(s, i, day, month, year, hour.value);
    }
  }

  lemma AfterTimeSound(s: string, i: nat, day: nat, month: nat, year: nat, hour: nat)
    requires DateAt(s, i, day, month, year) && TimeAt(s, year, hour)
    ensures AfterTime(s, i, day, month, year, hour).Some? ==> Valid(s, i, AfterTime(s, i, day, month, year, hour).value)
  {
    var r := AfterTime(s, i, day, month, year, hour);
    if r.Some? {
      PartsValid(s, i, r.value);
    }
  }

  /** The three stages together make a match. */
  lemma PartsValid(s: string, i: nat, p: Parts)
    requires DateAt(s, i, p.day, p.month, p.year)
    requires TimeAt(s, p.year, p.hour)
    requires TailFrom(s, p.hour + 3, p.space1, p.marker, p.space2)
    requires p.end == p.space2 + 2
    ensures Valid(s, i, p)
  {
  }

  /** The end of the match at `i`, if the pattern matches there. */
  function MatchAt(s: string, i: nat): (r: Option<nat>)
    ensures r.Some? ==> i < r.value <= |s|
    ensures r.Some? <==> i <= |s| && Recognise(s, i).Some?
    ensures r.Some? ==> r.value == Recognise(s, i).value.end
  {
    if i <= |s| && Recognise(s, i).Some? then Some(Recognise(s, i).value.end) else None
  }

  // ---------------------------------------------------------------------
  // The recogniser misses no word of the language.

  lemma MarkerFromComplete(s: string, q: nat, m: nat, d: nat)
    requires OptMarker(s, q, m) && OptSpace(s, m, d) && DashAt(s, d)
    ensures MarkerFrom(s, q).Some?
  {
    if m == q {
      assert NoMarker(s, q).Some?;
    } else {
      var j :| 0 <= j < |Markers| && m == q + |Markers[j]| && MarkerAt(s, q, Markers[j]);
      assert Alternative(s, q, Markers[j]).Some?;
    }
  }

  lemma TailAtComplete(s: string, p: nat, a: nat, m: nat, d: nat)
    requires TailFrom(s, p, a, m, d)
    ensures TailAt(s, p).Some?
  {
    MarkerFromComplete(s, a, m, d);
    TailAtFromMarker(s, p, a, m, d);
  }

  /** Once the marker stage matches after the first optional space, so does the whole tail. */
  lemma TailAtFromMarker(s: string, p: nat, a: nat, m: nat, d: nat)
    requires TailFrom(s, p, a, m, d)
    requires MarkerFrom(s, a).Some?
    ensures TailAt(s, p).Some?
  {
  }

  lemma DateFromComplete(s: string, i: nat, day: nat, month: nat, year: nat)
    requires i <= |s| && DateAt(s, i, day, month, year)
    ensures DateFrom(s, i) == Some((day, month, year))
  {
    assert Group(s, i, 1, 2, '/') == Some(day);
    assert Group(s, day + 1, 1, 2, '/') == Some(month);
    assert Group(s, month + 1, 2, 4, ',') == Some(year);
  }

  lemma HourFromComplete(s: string, year: nat, hour: nat)
    requires TimeAt(s, year, hour)
    ensures HourFrom(s, year) == Some(hour)
  {
    assert Group(s, year + 2, 1, 2, ':') == Some(hour);
    assert DigitRun(s, hour + 1, 2) == 2;
  }

  /** Whenever `s[i..]` starts with a word of the language, the recogniser matches at `i`, with the same date and time. */
  lemma RecogniseComplete(s: string, i: nat, p: Parts)
    requires i <= |s|
    requires Valid(s, i, p)
    ensures Recognise(s, i).Some?
    ensures var q := Recognise(s, i).value; (q.day, q.month, q.year, q.hour) == (p.day, p.month, p.year, p.hour)
  {
    DateFromComplete(s, i, p.day, p.month, p.year);
    AfterDateComplete(s, i, p);
  }

  lemma AfterDateComplete(s: string, i: nat, p: Parts)
    requires Valid(s, i, p)
    ensures AfterDate(s, i, p.day, p.month, p.year).Some?
    ensures var q := AfterDate(s, i, p.day, p.month, p.year).value; (q.day, q.month, q.year, q.hour) == (p.day, p.month, p.year, p.hour)
  {
    HourFromComplete(s, p.year, p.hour);
    AfterTimeComplete(s, i, p);
  }

  lemma AfterTimeComplete(s: string, i: nat, p: Parts)
    requires Valid(s, i, p)
    ensures AfterTime(s, i, p.day, p.month, p.year, p.hour).Some?
    ensures var q := AfterTime(s, i, p.day, p.month, p.year, p.hour).value; (q.day, q.month, q.year, q.hour) == (p.day, p.month, p.year, p.hour)
  {
    TailAtComplete(s, p.hour + 3, p.space1, p.marker, p.space2);
  }

  /** The pattern matches at `i` exactly when some word of the language starts there. */
  lemma MatchAtExactly(s: string, i: nat)
    requires i <= |s|
    ensures MatchAt(s, i).Some? <==> exists p :: Valid(s, i, p)
  {
    RecogniseSound(s, i);
    if p :| Valid(s, i, p) {
      RecogniseComplete(s, i, p);
    }
  }

  /** The boundary's matcher moves forward, as the scan requires. */
  lemma MatchAtAdvances()
    ensures Scan.Advances(MatchAt)
  {
  }

  /** `re.split(pattern, s)`: the text before the first boundary, then each message body. */
  function ReSplit(s: string): (pieces: seq<string>)
    ensures |pieces| == |FindAll(s)| + 1
  {
    MatchAtAdvances();
    Scan.RoundTrip(s, 0, MatchAt);
    Scan.SplitFrom(s, 0, MatchAt)
  }

  /** `re.findall(pattern, s)`: the boundary texts, in order. */
  function FindAll(s: string): seq<string> {
    MatchAtAdvances();
    Scan.FindAllFrom(s, 0, MatchAt)
  }

  /** The boundaries `re` finds in `s`, as (start, end) pairs. */
  function Boundaries(s: string): (ms: seq<(nat, nat)>)
    ensures Scan.LeftmostScan(s, 0, MatchAt, ms)
  {
    MatchAtAdvances();
    Scan.Matches(s, 0, MatchAt)
  }

  /**
   * One body per boundary, paired by position: there is one piece more than
   * there are boundaries, the `k`-th boundary text is the `k`-th match, and
   * body `k` (piece `k + 1`) runs from its end to the next boundary's start.
   */
  lemma SplitPairs(s: string, ms: seq<(nat, nat)>)
    requires ms == Boundaries(s)
    ensures forall k :: 0 <= k < |ms| ==> ms[k].0 < ms[k].1 <= |s| && MatchAt(s, ms[k].0) == Some(ms[k].1)
    ensures forall k :: 0 <= k < |ms| ==> ms[k].1 <= Scan.PieceEnd(s, ms, k + 1) <= |s|
    ensures |FindAll(s)| == |ms| && |ReSplit(s)| == |ms| + 1
    ensures forall k :: 0 <= k < |ms| ==> FindAll(s)[k] == s[ms[k].0..ms[k].1]
    ensures forall k :: 0 <= k < |ms| ==> ReSplit(s)[k + 1] == s[ms[k].1..Scan.PieceEnd(s, ms, k + 1)]
    ensures ReSplit(s)[0] == s[..Scan.PieceEnd(s, ms, 0)]
  {
    MatchAtAdvances();
    Scan.ScanShape(s, 0, MatchAt, ms);
    forall k | 0 <= k < |ms|
      ensures ms[k].1 <= Scan.PieceEnd(s, ms, k + 1) <= |s|
      ensures ReSplit(s)[k + 1] == s[ms[k].1..Scan.PieceEnd(s, ms, k + 1)]
    {
      assert Scan.Resume(0, ms, k + 1) == ms[k].1;
    }
    assert Scan.Resume(0, ms, 0) == 0;
  }

  /** The dropped preamble, each boundary text and its body, in order, rebuild the input exactly. */
  lemma SplitRoundTrip(s: string)
    ensures |ReSplit(s)| == |FindAll(s)| + 1
    ensures Scan.Rejoin(ReSplit(s), FindAll(s)) == s
  {
    MatchAtAdvances();
    Scan.RoundTrip(s, 0, MatchAt);
  }

  /** No boundary anywhere: nothing is found and the whole text is the one (dropped) piece. */
  lemma NoBoundaryNoBodies(s: string)
    requires forall j :: 0 <= j < |s| ==> MatchAt(s, j).None?
    ensures FindAll(s) == [] && ReSplit(s) == [s]
  {
    MatchAtAdvances();
    Scan.NothingFound(s, 0, MatchAt);
  }
}

/**
 * The scanning loop of `re.split` and `re.findall`, for any pattern that never
 * matches the empty string: try each start from left to right, take the first
 * match, continue after it.
 */
module Scan {
  import opened Common

  /** A pattern: where its match at `i` ends, if it matches there. */
  type Matcher = (string, nat) -> Option<nat>

  /** Every match ends after it starts and within the text. */
  ghost predicate Advances(m: Matcher) {
    forall s: string, i: nat :: m(s, i).Some? ==> i < m(s, i).value <= |s|
  }

  /** The leftmost match that starts at or after `from`, as (start, end). */
  function Search(s: string, from: nat, m: Matcher): (r: Option<(nat, nat)>)
    requires from <= |s| && Advances(m)
    ensures r.Some? ==> from <= r.value.0 < r.value.1 <= |s| && m(s, r.value.0) == Some(r.value.1)
    ensures forall j :: from <= j < (if r.Some? then r.value.0 else |s|) ==> m(s, j).None?
    decreases |s| - from
  {
    if from == |s| then None
    else if m(s, from).Some? then Some((from, m(s, from).value))
    else Search(s, from + 1, m)
  }

  /** Where the `k`-th match may start at the earliest: the end of the one before it. */
  function Resume(from: nat, ms: seq<(nat, nat)>, k: nat): nat
    requires k <= |ms|
  {
    if k == 0 then from else ms[k - 1].1
  }

  /** Where the `k`-th piece of the text ends: at the start of the `k`-th match, or at the end. */
  function PieceEnd(s: string, ms: seq<(nat, nat)>, k: nat): nat
    requires k <= |ms|
  {
    if k < |ms| then ms[k].0 else |s|
  }

  /** No match starts in `[lo, hi)`. */
  predicate NoMatchBetween(s: string, m: Matcher, lo: nat, hi: nat) {
    forall j :: lo <= j < hi ==> m(s, j).None?
  }

  /**
   * `ms` is what a leftmost-first, non-overlapping scan of `s` from `from`
   * finds: each entry is the match at its start, no match starts between
   * `from` (or the end of the entry before) and the entry, nor after the last.
   */
  predicate LeftmostScan(s: string, from: nat, m: Matcher, ms: seq<(nat, nat)>)
    decreases |ms|
  {
    if ms == [] then from <= |s| && NoMatchBetween(s, m, from, |s|)
    else
      && from <= ms[0].0 < ms[0].1 <= |s|
      && m(s, ms[0].0) == Some(ms[0].1)
      && NoMatchBetween(s, m, from, ms[0].0)
      && LeftmostScan(s, ms[0].1, m, ms[1..])
  }

  /** The matches found from `from` on, in order. */
  function Matches(s: string, from: nat, m: Matcher): (ms: seq<(nat, nat)>)
    requires from <= |s| && Advances(m)
    ensures LeftmostScan(s, from, m, ms)
    decreases |s| - from
  {
    var first := Search(s, from, m);
    if first.None? then []
    else
      var rest := Matches(s, first.value.1, m);
      assert ([first.value] + rest)[1..] == rest;
      [first.value] + rest
  }

  /**
   * Each entry of a scan is a match within the text, and each gap (from the
   * end of one entry, or `from`, to the start of the next, or the end of the
   * text) is free of matches.
   */
  lemma {:induction false} ScanEntries(s: string, from: nat, m: Matcher, ms: seq<(nat, nat)>)
    requires LeftmostScan(s, from, m, ms)
    ensures forall k :: 0 <= k < |ms| ==> from <= ms[k].0 < ms[k].1 <= |s| && m(s, ms[k].0) == Some(ms[k].1)
    ensures forall k :: 0 <= k <= |ms| ==>
      Resume(from, ms, k) <= PieceEnd(s, ms, k) && NoMatchBetween(s, m, Resume(from, ms, k), PieceEnd(s, ms, k))
    decreases |ms|
  {
    if ms != [] {
      var rest := ms[1..];
      ScanEntries(s, ms[0].1, m, rest);
      ResumeShift(from, ms[0], rest);
      PieceEndShift(s, ms[0], rest);
      assert ms == [ms[0]] + rest;
      forall k | 1 <= k < |ms|
        ensures from <= ms[k].0 < ms[k].1 <= |s| && m(s, ms[k].0) == Some(ms[k].1)
      {
        assert ms[k] == rest[k - 1];
      }
      assert Resume(from, ms, 0) == from && PieceEnd(s, ms, 0) == ms[0].0;
    }
  }

  lemma PieceEndShift(s: string, first: (nat, nat), rest: seq<(nat, nat)>)
    ensures forall k :: 1 <= k <= |[first] + rest| ==>
      PieceEnd(s, [first] + rest, k) == PieceEnd(s, rest, k - 1)
  {
    var ms := [first] + rest;
    forall k | 1 <= k <= |ms| ensures PieceEnd(s, ms, k) == PieceEnd(s, rest, k - 1) {
      if k < |ms| {
        assert ms[k] == rest[k - 1];
      }
    }
  }

  lemma ResumeShift(from: nat, first: (nat, nat), rest: seq<(nat, nat)>)
    ensures forall k :: 1 <= k <= |[first] + rest| ==>
      Resume(from, [first] + rest, k) == Resume(first.1, rest, k - 1)
  {
    var ms := [first] + rest;
    forall k | 1 <= k <= |ms| ensures Resume(from, ms, k) == Resume(first.1, rest, k - 1) {
      if k > 1 {
        assert ms[k - 1] == rest[k - 2];
      }
    }
  }

  /** With no match from `from` on, the search finds nothing. */
  lemma {:induction false} SearchNone(s: string, from: nat, m: Matcher)
    requires from <= |s| && Advances(m)
    requires NoMatchBetween(s, m, from, |s|)
    ensures Search(s, from, m).None?
    decreases |s| - from
  {
    if from < |s| {
      SearchNone(s, from + 1, m);
    }
  }

  /** A match at `j` with none before it from `from` on is what the search finds. */
  lemma {:induction false} SearchFinds(s: string, from: nat, m: Matcher, j: nat)
    requires from <= j <= |s| && Advances(m)
    requires m(s, j).Some? && NoMatchBetween(s, m, from, j)
    ensures Search(s, from, m) == Some((j, m(s, j).value))
    decreases j - from
  {
    if from < j {
      SearchFinds(s, from + 1, m, j);
    }
  }

  /** The scan is the only one with the leftmost property: any scan that has it is `Matches`. */
  lemma {:induction false} LeftmostScanUnique(s: string, from: nat, m: Matcher, ms: seq<(nat, nat)>)
    requires from <= |s| && Advances(m)
    requires LeftmostScan(s, from, m, ms)
    ensures ms == Matches(s, from, m)
    decreases |s| - from
  {
    if ms == [] {
      SearchNone(s, from, m);
    } else {
      SearchFinds(s, from, m, ms[0].0);
      LeftmostScanUnique(s, ms[0].1, m, ms[1..]);
      assert ms == [ms[0]] + ms[1..];
    }
  }

  /** `re.split(pattern, s[from..])`: the text before, between and after the matches. */
  function SplitFrom(s: string, from: nat, m: Matcher): (pieces: seq<string>)
    requires from <= |s| && Advances(m)
    decreases |s| - from
  {
    var first := Search(s, from, m);
    if first.None? then [s[from..]] else [s[from..first.value.0]] + SplitFrom(s, first.value.1, m)
  }

  /** `re.findall(pattern, s[from..])`: the matched texts. */
  function FindAllFrom(s: string, from: nat, m: Matcher): (found: seq<string>)
    requires from <= |s| && Advances(m)
    decreases |s| - from
  {
    var first := Search(s, from, m);
    if first.None? then [] else [s[first.value.0..first.value.1]] + FindAllFrom(s, first.value.1, m)
  }

  /** The pieces with the separators put back between them. */
  function Rejoin(pieces: seq<string>, seps: seq<string>): string
    requires |pieces| == |seps| + 1
  {
    if seps == [] then pieces[0] else pieces[0] + seps[0] + Rejoin(pieces[1..], seps[1..])
  }

  /** One found text per match, one piece more, each where the scan puts it. */
  lemma {:induction false} ScanShape(s: string, from: nat, m: Matcher, ms: seq<(nat, nat)>)
    requires from <= |s| && Advances(m) && ms == Matches(s, from, m)
    ensures forall k :: 0 <= k < |ms| ==> from <= ms[k].0 < ms[k].1 <= |s| && m(s, ms[k].0) == Some(ms[k].1)
    ensures forall k :: 0 <= k <= |ms| ==> from <= Resume(from, ms, k) <= PieceEnd(s, ms, k) <= |s|
    ensures |FindAllFrom(s, from, m)| == |ms| && |SplitFrom(s, from, m)| == |ms| + 1
    ensures forall k :: 0 <= k < |ms| ==> FindAllFrom(s, from, m)[k] == s[ms[k].0..ms[k].1]
    ensures forall k :: 0 <= k <= |ms| ==> SplitFrom(s, from, m)[k] == s[Resume(from, ms, k)..PieceEnd(s, ms, k)]
    decreases |s| - from
  {
    ScanEntries(s, from, m, ms);
    var first := Search(s, from, m);
    if first.Some? {
      var rest := Matches(s, first.value.1, m);
      ScanShape(s, first.value.1, m, rest);
      assert ms == [first.value] + rest;
      ResumeShift(from, first.value, rest);
      PieceEndShift(s, first.value, rest);
    }
  }

  /** Splitting loses nothing: the pieces with the found texts between them give back the input. */
  lemma {:induction false} RoundTrip(s: string, from: nat, m: Matcher)
    requires from <= |s| && Advances(m)
    ensures |SplitFrom(s, from, m)| == |FindAllFrom(s, from, m)| + 1
    ensures Rejoin(SplitFrom(s, from, m), FindAllFrom(s, from, m)) == s[from..]
    decreases |s| - from
  {
    var first := Search(s, from, m);
    if first.Some? {
      var (j, e) := first.value;
      RoundTrip(s, e, m);
      calc {
        Rejoin(SplitFrom(s, from, m), FindAllFrom(s, from, m));
        s[from..j] + s[j..e] + Rejoin(SplitFrom(s, e, m), FindAllFrom(s, e, m));
        s[from..j] + s[j..e] + s[e..];
        { assert s[from..] == s[from..j] + s[j..e] + s[e..]; }
        s[from..];
      }
    }
  }

  /** With no match from `from` on there is nothing found and one piece, the rest of the text. */
  lemma NothingFound(s: string, from: nat, m: Matcher)
    requires from <= |s| && Advances(m)
    requires forall j :: from <= j < |s| ==> m(s, j).None?
    ensures FindAllFrom(s, from, m) == [] && SplitFrom(s, from, m) == [s[from..]]
  {
  }
}
