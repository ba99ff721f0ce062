/**
 * `preprocess`: the transcript cut at its boundaries, each boundary text
 * normalised and parsed into an instant, each body split into sender and
 * message, and each hour labelled with its one-hour period.
 */
module Preprocessor {
  import opened Common
  import opened Text
  import Boundary
  import Scan

  // ---------------------------------------------------------------------
  // Normalising a boundary text before it is parsed.

  /** U+202F NARROW NO-BREAK SPACE, which some exports put before AM/PM. */
  const NarrowSpace: char := '\U{202F}'

  /** `stamp.replace(' ', ' ').upper()`. */
  function Normalize(stamp: string): (r: string)
    ensures |r| == |stamp|
    ensures forall i :: 0 <= i < |stamp| && stamp[i] == NarrowSpace ==> r[i] == ' '
    ensures forall i :: 0 <= i < |stamp| && stamp[i] != NarrowSpace ==> r[i] == UpperChar(stamp[i])
  {
    Upper(seq(|stamp|, i requires 0 <= i < |stamp| => if stamp[i] == NarrowSpace then ' ' else stamp[i]))
  }

  /** A normalised text has no narrow space and no lower-case letter. */
  lemma NormalizeClean(stamp: string)
    ensures forall i :: 0 <= i < |Normalize(stamp)| ==> Normalize(stamp)[i] != NarrowSpace && !IsLower(Normalize(stamp)[i])
  {
    var r := Normalize(stamp);
    forall i | 0 <= i < |r| ensures r[i] != NarrowSpace && !IsLower(r[i]) {
      if stamp[i] != NarrowSpace {
        assert r[i] == UpperChar(stamp[i]);
      }
    }
  }

  /** Normalising twice is normalising once. */
  lemma NormalizeIdempotent(stamp: string)
    ensures Normalize(Normalize(stamp)) == Normalize(stamp)
  {
    var r := Normalize(stamp);
    NormalizeClean(stamp);
    forall i | 0 <= i < |r| ensures Normalize(r)[i] == r[i] {
      assert r[i] != NarrowSpace;
    }
  }

  // ---------------------------------------------------------------------
  // Splitting a body with `re.split(r'([\w\W]+?):\s', body)`.

  /** The sender a body without a separator is attributed to. */
  const GroupNotification := "group_notification"

  /** A colon followed by a whitespace character starts at `c`. */
  predicate SeparatorAt(s: string, c: nat) {
    c + 1 < |s| && s[c] == ':' && IsSpace(s[c + 1])
  }

  /** The first separator at or after `lo`. */
  function FindSeparator(s: string, lo: nat): (r: Option<nat>)
    ensures r.Some? ==> lo <= r.value && SeparatorAt(s, r.value)
    ensures forall c :: lo <= c && (r.None? || c < r.value) ==> !SeparatorAt(s, c)
    decreases |s| - lo
  {
    if lo + 1 >= |s| then None
    else if SeparatorAt(s, lo) then Some(lo)
    else FindSeparator(s, lo + 1)
  }

  /**
   * `([\w\W]+?):\s` tried at `p`: the lazy group takes one character, then
   * one more at a time, until a separator follows it; the match ends after
   * the separator's whitespace character.
   */
  function SenderMatch(s: string, p: nat): (r: Option<nat>)
    ensures r.Some? ==> p < r.value <= |s|
    ensures r.Some? <==> FindSeparator(s, p + 1).Some?
    ensures r.Some? ==> r.value == FindSeparator(s, p + 1).value + 2
  {
    var c := FindSeparator(s, p + 1);
    if c.Some? then Some(c.value + 2) else None
  }

  lemma SenderMatchAdvances()
    ensures Scan.Advances(SenderMatch)
  {
  }

  /**
   * `re.split` with one capturing group, from `from` on: the text before each
   * match, then the group (the match without its separator), and the text after
   * the last match.
   */
  function SplitKeep(s: string, from: nat): (entry: seq<string>)
    requires from <= |s|
    ensures |entry| % 2 == 1
    decreases |s| - from
  {
    SenderMatchAdvances();
    var first := Scan.Search(s, from, SenderMatch);
    if first.None? then [s[from..]]
    else [s[from..first.value.0], s[first.value.0..first.value.1 - 2]] + SplitKeep(s, first.value.1)
  }

  /** The sender and the message of one body (the loop body of the source's sender loop). */
  function Attribute(body: string): (r: (string, string)) {
    var entry := SplitKeep(body, 0);
    if |entry| > 1 then (entry[1], Join(" ", entry[2..])) else (GroupNotification, entry[0])
  }

  /**
   * The message built from the text `t` that follows the sender's separator:
   * each later separator is cut out, the text before it is set off by one
   * space on each side, and what follows the last one is appended.
   */
  function Stitched(t: string): string
    decreases |t|
  {
    match FindSeparator(t, 1)
    case None => t
    case Some(c) => " " + t[..c] + " " + Stitched(t[c + 2..])
  }

  // ---------------------------------------------------------------------
  // What the split gives.

  /** No separator from `p + 1` on: the rest of the text is the last piece. */
  lemma SplitKeepDone(s: string, p: nat)
    requires p <= |s| && FindSeparator(s, p + 1).None?
    ensures SplitKeep(s, p) == [s[p..]]
  {
    SenderMatchAdvances();
    forall j | p <= j < |s| ensures SenderMatch(s, j).None? {
      assert FindSeparator(s, j + 1).None?;
    }
    Scan.SearchNone(s, p, SenderMatch);
  }

  /** A separator at `c`, the first from `p + 1` on: the match starts at `p`, nothing is before it, and `s[p..c]` is the group. */
  lemma SplitKeepMore(s: string, p: nat, c: nat)
    requires p <= |s| && FindSeparator(s, p + 1) == Some(c)
    ensures SplitKeep(s, p) == ["", s[p..c]] + SplitKeep(s, c + 2)
  {
    SenderMatchAdvances();
    assert Scan.Search(s, p, SenderMatch) == Some((p, c + 2));
    assert s[p..p] == "";
  }

  /** The first separator from `lo` on is the one with none before it. */
  lemma FindSeparatorIs(s: string, lo: nat, c: nat)
    requires lo <= c && SeparatorAt(s, c)
    requires forall k :: lo <= k < c ==> !SeparatorAt(s, k)
    ensures FindSeparator(s, lo) == Some(c)
  {
  }

  /** Where the separators of a suffix lie. */
  lemma FindSeparatorSuffix(s: string, p: nat)
    requires p <= |s|
    ensures var c := FindSeparator(s, p + 1);
      FindSeparator(s[p..], 1) == if c.Some? then Some(c.value - p) else None
  {
    var t := s[p..];
    assert forall k :: SeparatorAt(t, k) <==> SeparatorAt(s, p + k);
    var c := FindSeparator(s, p + 1);
    if c.Some? {
      FindSeparatorIs(t, 1, c.value - p);
    }
  }

  lemma JoinCons(sep: string, x: string, xs: seq<string>)
    requires xs != []
    ensures Join(sep, [x] + xs) == x + sep + Join(sep, xs)
  {
    assert ([x] + xs)[1..] == xs;
  }

  /** Joining the pieces of the split of `s[p..]` with spaces gives `Stitched(s[p..])`. */
  lemma {:induction false} JoinSplitKeep(s: string, p: nat)
    requires p <= |s|
    ensures Join(" ", SplitKeep(s, p)) == Stitched(s[p..])
    decreases |s| - p
  {
    var c := FindSeparator(s, p + 1);
    if c.None? {
      JoinSplitKeepDone(s, p);
    } else {
      var n := c.value;
      assert p < n + 2 <= |s|;
      JoinSplitKeep(s, n + 2);
      JoinSplitKeepStep(s, p, n);
    }
  }

  lemma JoinSplitKeepDone(s: string, p: nat)
    requires p <= |s| && FindSeparator(s, p + 1).None?
    ensures Join(" ", SplitKeep(s, p)) == Stitched(s[p..])
  {
    FindSeparatorSuffix(s, p);
    SplitKeepDone(s, p);
  }

  lemma JoinSplitKeepStep(s: string, p: nat, c: nat)
    requires p <= |s| && FindSeparator(s, p + 1) == Some(c)
    requires Join(" ", SplitKeep(s, c + 2)) == Stitched(s[c + 2..])
    ensures Join(" ", SplitKeep(s, p)) == Stitched(s[p..])
  {
    var rest := SplitKeep(s, c + 2);
    SplitKeepMore(s, p, c);
    JoinPieces(s[p..c], rest);
    StitchedFrom(s, p, c);
  }

  /** Stitching the text from `p` puts its first piece in front of the stitched rest. */
  lemma StitchedFrom(s: string, p: nat, c: nat)
    requires p <= |s| && FindSeparator(s, p + 1) == Some(c)
    ensures c + 2 <= |s|
    ensures Stitched(s[p..]) == " " + s[p..c] + " " + Stitched(s[c + 2..])
  {
    FindSeparatorSuffix(s, p);
    SuffixSlices(s, p, c);
    StitchedPieces(s[p..], c - p, s[p..c], s[c + 2..]);
  }

  lemma StitchedPieces(t: string, c: nat, head: string, tail: string)
    requires FindSeparator(t, 1) == Some(c) && head == t[..c] && tail == t[c + 2..]
    ensures Stitched(t) == " " + head + " " + Stitched(tail)
  {
    StitchedStep(t, c);
  }

  lemma SuffixSlices(s: string, p: nat, c: nat)
    requires p <= c && c + 2 <= |s|
    ensures s[p..][..c - p] == s[p..c] && s[p..][c - p + 2..] == s[c + 2..]
  {
  }

  lemma JoinPieces(x: string, rest: seq<string>)
    requires rest != []
    ensures Join(" ", ["", x] + rest) == " " + x + " " + Join(" ", rest)
  {
    JoinCons(" ", x, rest);
    JoinCons(" ", "", [x] + rest);
    assert ["", x] + rest == [""] + ([x] + rest);
  }

  lemma StitchedStep(t: string, c: nat)
    requires FindSeparator(t, 1) == Some(c)
    ensures Stitched(t) == " " + t[..c] + " " + Stitched(t[c + 2..])
  {
  }

  /**
   * With a separator at some `c >= 1`, the first such `c` ends the sender, who
   * is then never empty, and the message is the rest with every later
   * separator cut out (`Stitched`).
   */
  lemma AttributeFound(body: string, c: nat)
    requires 1 <= c && SeparatorAt(body, c)
    requires forall k :: 1 <= k < c ==> !SeparatorAt(body, k)
    ensures Attribute(body) == (body[..c], Stitched(body[c + 2..]))
    ensures Attribute(body).0 != []
  {
    FindSeparatorIs(body, 1, c);
    SplitKeepMore(body, 0, c);
    JoinSplitKeep(body, c + 2);
    var entry := SplitKeep(body, 0);
    assert entry[2..] == SplitKeep(body, c + 2);
  }

  /** With no separator at any `c >= 1`, the body is a group notification and is kept whole. */
  lemma AttributeNotFound(body: string)
    requires forall k :: 1 <= k ==> !SeparatorAt(body, k)
    ensures Attribute(body) == (GroupNotification, body)
  {
    SplitKeepDone(body, 0);
  }

  /** When the sender's separator is the last one that can split, the message is exactly what follows it. */
  lemma AttributeSingle(body: string, c: nat)
    requires 1 <= c && SeparatorAt(body, c)
    requires forall k :: 1 <= k < c ==> !SeparatorAt(body, k)
    requires forall k :: c + 3 <= k ==> !SeparatorAt(body, k)
    ensures Attribute(body) == (body[..c], body[c + 2..])
  {
    AttributeFound(body, c);
    FindSeparatorSuffix(body, c + 2);
  }

  /** A later separator is cut out of the message: `Alice: a: b` is `Alice` saying ` a b`. */
  lemma AttributeExample()
    ensures Attribute("Alice: a: b") == ("Alice", " a b")
  {
    var body := "Alice: a: b";
    AttributeFound(body, 5);
    assert body[..5] == "Alice";
    assert body[7..] == "a: b";
    StitchedStep("a: b", 1);
    assert "a: b"[..1] == "a" && "a: b"[3..] == "b";
    assert Stitched("b") == "b";
    calc {
      Stitched(body[7..]);
      Stitched("a: b");
      " " + "a" + " " + Stitched("b");
      " a b";
    }
  }

  // ---------------------------------------------------------------------
  // The one-hour period an hour falls in.

  /** An hour of the day, as `Series.dt.hour` gives it. */
  type Hour = h: nat | h < 24

  /** The source's period label of an hour; hours 11 and 23 end at the wrong half of the day. */
  function PeriodLabel(h: Hour): (period: string) {
    if h == 0 then "12 AM - 1 AM"
    else if h < 12 then Numeral(h) + " AM - " + Numeral(h + 1) + " AM"
    else if h == 12 then "12 PM - 1 PM"
    else Numeral(h - 12) + " PM - " + Numeral(h - 11) + " PM"
  }

  /** The hour of the day of `v` o'clock (1 <= v <= 12) in the morning or the afternoon. */
  function ClockHour(v: nat, pm: bool): Hour
    requires 1 <= v <= 12
  {
    if v == 12 then (if pm then 12 else 0) else (if pm then v + 12 else v)
  }

  /**
   * A 12-hour clock time `h AM` or `h PM` (1 <= h <= 12) at the start of `s`,
   * read as an hour of the day, with the number of characters it takes.
   */
  function ReadClock(s: string): (r: Option<(Hour, nat)>)
    ensures r.Some? ==> 4 <= r.value.1 <= |s|
  {
    var n := Boundary.DigitRun(s, 0, |s|);
    if n == 0 || |s| < n + 3 then None
    else
      var v := Value(s[..n]);
      var half := s[n..n + 3];
      if !(1 <= v <= 12) then None
      else if half == " AM" then Some((ClockHour(v, false), n + 3))
      else if half == " PM" then Some((ClockHour(v, true), n + 3))
      else None
  }

  /** A period label `<clock> - <clock>` read back as the hours it starts and ends at. */
  function ReadPeriod(text: string): Option<(Hour, Hour)> {
    match ReadClock(text)
    case None => None
    case Some((start, n)) =>
      if !(n + 3 <= |text| && text[n..n + 3] == " - ") then None
      else match ReadClock(text[n + 3..])
        case None => None
        case Some((end, m)) => if n + 3 + m == |text| then Some((start, end)) else None
  }

  /** The digits of `str(x)` are read as one run when a non-digit follows them. */
  lemma DigitRunOfNumeral(x: nat, rest: string)
    requires rest != [] && !IsDigit(rest[0])
    ensures Boundary.DigitRun(Numeral(x) + rest, 0, |Numeral(x) + rest|) == |Numeral(x)|
  {
    var s := Numeral(x) + rest;
    var n := Boundary.DigitRun(s, 0, |s|);
    assert s[|Numeral(x)|] == rest[0];
  }

  /** The clock time at the start of `s` when it is the numeral of `x`, one space and AM or PM. */
  lemma ReadClockOfNumeral(x: nat, half: string, rest: string)
    requires 1 <= x <= 12 && (half == " AM" || half == " PM")
    ensures var s := Numeral(x) + half + rest;
      ReadClock(s) == Some((ClockHour(x, half == " PM"), |Numeral(x)| + 3))
  {
    var s := Numeral(x) + half + rest;
    var n := |Numeral(x)|;
    assert s == Numeral(x) + (half + rest);
    DigitRunOfNumeral(x, half + rest);
    assert s[..n] == Numeral(x);
    NumeralValue(x);
    assert s[n..n + 3] == half;
  }

  /** A label built from two clock times reads back as those two times. */
  lemma ReadPeriodOfClocks(a: nat, ha: string, b: nat, hb: string)
    requires 1 <= a <= 12 && (ha == " AM" || ha == " PM")
    requires 1 <= b <= 12 && (hb == " AM" || hb == " PM")
    ensures ReadPeriod(Numeral(a) + ha + " - " + Numeral(b) + hb) == Some((ClockHour(a, ha == " PM"), ClockHour(b, hb == " PM")))
  {
    var first, second := Numeral(a) + ha, Numeral(b) + hb;
    var text := first + " - " + second;
    FirstClock(a, ha, second);
    Slices3(first, " - ", second);
    SecondClock(b, hb);
    ReadPeriodSteps(text, ClockHour(a, ha == " PM"), |first|, ClockHour(b, hb == " PM"), |second|);
    AppendAssociates(Numeral(a) + ha + " - ", Numeral(b), hb);
  }

  lemma AppendAssociates(x: string, y: string, z: string)
    ensures x + (y + z) == x + y + z
  {
  }

  lemma FirstClock(a: nat, ha: string, second: string)
    requires 1 <= a <= 12 && (ha == " AM" || ha == " PM")
    ensures ReadClock(Numeral(a) + ha + " - " + second) == Some((ClockHour(a, ha == " PM"), |Numeral(a) + ha|))
  {
    assert Numeral(a) + ha + " - " + second == Numeral(a) + ha + (" - " + second);
    ReadClockOfNumeral(a, ha, " - " + second);
  }

  lemma SecondClock(b: nat, hb: string)
    requires 1 <= b <= 12 && (hb == " AM" || hb == " PM")
    ensures ReadClock(Numeral(b) + hb) == Some((ClockHour(b, hb == " PM"), |Numeral(b) + hb|))
  {
    assert Numeral(b) + hb == Numeral(b) + hb + "";
    ReadClockOfNumeral(b, hb, "");
  }

  lemma Slices3(x: string, y: string, z: string)
    ensures (x + y + z)[|x|..|x| + |y|] == y && (x + y + z)[|x| + |y|..] == z
  {
    assert (x + y + z) == x + y + z;
  }

  lemma ReadPeriodSteps(text: string, start: Hour, n: nat, end: Hour, m: nat)
    requires ReadClock(text) == Some((start, n))
    requires n + 3 <= |text| && text[n..n + 3] == " - "
    requires ReadClock(text[n + 3..]) == Some((end, m)) && n + 3 + m == |text|
    ensures ReadPeriod(text) == Some((start, end))
  {
  }

  /**
   * Every label reads back as the hour it was made from, so the 24 labels are
   * pairwise distinct; it ends one hour later, except that the labels of hours
   * 11 and 23 end at 12 AM and 12 PM, twelve hours off.
   */
  lemma PeriodLabelReadsBack(h: Hour)
    ensures ReadPeriod(PeriodLabel(h)).Some?
    ensures ReadPeriod(PeriodLabel(h)).value.0 == h
    ensures h != 11 && h != 23 ==> ReadPeriod(PeriodLabel(h)).value.1 == (h + 1) % 24
    ensures h == 11 ==> ReadPeriod(PeriodLabel(h)).value.1 == 0
    ensures h == 23 ==> ReadPeriod(PeriodLabel(h)).value.1 == 12
  {
    var r := ReadPeriod(PeriodLabel(h));
    assert r == Some((h, EndHour(h))) by {
      PeriodLabelRead(h);
    }
  }

  /** Where the source's label of `h` ends. */
  function EndHour(h: Hour): Hour {
    if h == 11 then 0 else if h == 23 then 12 else (h + 1) % 24
  }

  lemma PeriodLabelRead(h: Hour)
    ensures ReadPeriod(PeriodLabel(h)) == Some((h, EndHour(h)))
  {
    PeriodLabelClocks(h);
    if h == 0 {
      PeriodLabelReadAt(h, 12, " AM", 1, " AM");
    } else if h < 12 {
      PeriodLabelReadAt(h, h, " AM", h + 1, " AM");
    } else if h == 12 {
      PeriodLabelReadAt(h, 12, " PM", 1, " PM");
    } else {
      PeriodLabelReadAt(h, h - 12, " PM", h - 11, " PM");
    }
  }

  lemma PeriodLabelReadAt(h: Hour, a: nat, ha: string, b: nat, hb: string)
    requires 1 <= a <= 12 && (ha == " AM" || ha == " PM")
    requires 1 <= b <= 12 && (hb == " AM" || hb == " PM")
    requires PeriodLabel(h) == Numeral(a) + ha + " - " + Numeral(b) + hb
    requires ClockHour(a, ha == " PM") == h && ClockHour(b, hb == " PM") == EndHour(h)
    ensures ReadPeriod(PeriodLabel(h)) == Some((h, EndHour(h)))
  {
    ReadPeriodOfClocks(a, ha, b, hb);
  }

  /** Each label is two clock times joined by ` - `. */
  lemma PeriodLabelClocks(h: Hour)
    ensures h == 0 ==> PeriodLabel(h) == Numeral(12) + " AM" + " - " + Numeral(1) + " AM"
    ensures 0 < h < 12 ==> PeriodLabel(h) == Numeral(h) + " AM" + " - " + Numeral(h + 1) + " AM"
    ensures h == 12 ==> PeriodLabel(h) == Numeral(12) + " PM" + " - " + Numeral(1) + " PM"
    ensures 12 < h ==> PeriodLabel(h) == Numeral(h - 12) + " PM" + " - " + Numeral(h - 11) + " PM"
  {
    if h == 0 || h == 12 {
      NoonNumerals();
    }
  }

  lemma NoonNumerals()
    ensures Numeral(12) == "12" && Numeral(1) == "1"
  {
  }

  /** Different hours get different labels. */
  lemma PeriodLabelInjective(g: Hour, h: Hour)
    requires PeriodLabel(g) == PeriodLabel(h)
    ensures g == h
  {
    PeriodLabelReadsBack(g);
    PeriodLabelReadsBack(h);
  }

  /** Hours 11 and 23 get labels that end at midnight and at noon. */
  lemma PeriodLabelEleven()
    ensures PeriodLabel(11) == "11 AM - 12 AM"
    ensures PeriodLabel(23) == "11 PM - 12 PM"
  {
    assert Numeral(11) == "11";
    assert Numeral(12) == "12";
  }

  // ---------------------------------------------------------------------
  // The two loops that build the user, message and period columns.

  /** The source's sender loop: one user and one message per body, in order. */
  method AttributeAll(bodies: seq<string>) returns (users: seq<string>, messages: seq<string>)
    ensures |users| == |bodies| && |messages| == |bodies|
    ensures forall k :: 0 <= k < |bodies| ==> (users[k], messages[k]) == Attribute(bodies[k])
  {
    users, messages := [], [];
    var i := 0;
    while i < |bodies|
      invariant i <= |bodies| && |users| == i && |messages| == i
      invariant forall k :: 0 <= k < i ==> (users[k], messages[k]) == Attribute(bodies[k])
    {
      var entry := SplitKeep(bodies[i], 0);
      if |entry| > 1 {
        users := users + [entry[1]];
        messages := messages + [Join(" ", entry[2..])];
      } else {
        users := users + [GroupNotification];
        messages := messages + [entry[0]];
      }
      i := i + 1;
    }
  }

  /** The source's period loop: one label per hour, in order. */
  method PeriodColumn(hours: seq<Hour>) returns (periods: seq<string>)
    ensures |periods| == |hours|
    ensures forall k :: 0 <= k < |hours| ==> periods[k] == PeriodLabel(hours[k])
  {
    periods := [];
    for i := 0 to |hours|
      invariant |periods| == i
      invariant forall k :: 0 <= k < i ==> periods[k] == PeriodLabel(hours[k])
    {
      periods := periods + [PeriodLabel(hours[i])];
    }
  }

  // ---------------------------------------------------------------------
  // Records and the whole pipeline.

  type MonthNumber = m: nat | 1 <= m <= 12 witness 1
  type DayOfMonth = d: nat | 1 <= d <= 31 witness 1

  /** A day of the week, 0 being Monday (`Series.dt.weekday`). */
  type Weekday = d: nat | d < 7

  /** A calendar date (`Series.dt.date`). */
  datatype Date = Date(year: nat, month: MonthNumber, day: DayOfMonth)

  /** What parsing one normalised boundary text gives: its date, the weekday of that date, and the hour. */
  datatype Instant = Instant(date: Date, weekday: Weekday, hour: Hour)

  /** `Series.dt.month_name()`, by month number. */
  const MonthNames: seq<string> := ["January", "February", "March", "April", "May", "June", "July",
                                    "August", "September", "October", "November", "December"]

  /** `Series.dt.day_name()`, by weekday. */
  const DayNames: seq<string> := ["Monday", "Tuesday", "Wednesday", "Thursday", "Friday", "Saturday", "Sunday"]

  /** One row of the table `preprocess` returns (the `minute` column is not modelled). */
  datatype Record = Record(user: string, message: string, date: Date, monthName: string,
                           dayName: string, hour: Hour, period: string)

  /** Why `preprocess` raises: some boundary text does not parse as `%d/%m/%y, %I:%M %p - `. */
  datatype PreprocessError = UnparsedTimestamp

  /** The row built from one body and the instant parsed from its boundary text. */
  function RecordOf(body: string, t: Instant): Record {
    Record(Attribute(body).0, Attribute(body).1, t.date, MonthNames[t.date.month - 1],
           DayNames[t.weekday], t.hour, PeriodLabel(t.hour))
  }

  /** The columns of a row agree with each other as `preprocess` derives them. */
  predicate WellFormed(r: Record) {
    && r.monthName == MonthNames[r.date.month - 1]
    && r.dayName in DayNames
    && r.period == PeriodLabel(r.hour)
  }

  /**
   * `preprocess(data)`, with `parse` standing for `pd.to_datetime` in the
   * format `%d/%m/%y, %I:%M %p - ` together with the calendar fields pandas
   * derives. When any boundary text fails to parse, the source's retry with
   * a four-digit year applies `.str` to a datetime column and raises, so the
   * whole call fails. Otherwise there is one row per boundary, in order,
   * built from the body that follows it.
   */
  method Preprocess(data: string, parse: string -> Option<Instant>) returns (r: Result<seq<Record>, PreprocessError>)
    ensures var dates := Boundary.FindAll(data);
      r.Failure? <==> exists k :: 0 <= k < |dates| && parse(Normalize(dates[k])).None?
    ensures r.Success? ==> |r.value| == |Boundary.FindAll(data)|
    ensures r.Success? ==> forall k :: 0 <= k < |r.value| ==>
      r.value[k] == RecordOf(Boundary.ReSplit(data)[k + 1], parse(Normalize(Boundary.FindAll(data)[k])).value)
    ensures r.Success? ==> forall k :: 0 <= k < |r.value| ==> WellFormed(r.value[k])
    ensures (forall j :: 0 <= j < |data| ==> Boundary.MatchAt(data, j).None?) ==> r == Success([])
  {
    var bodies := Boundary.ReSplit(data)[1..];
    var dates := Boundary.FindAll(data);
    var instants := ParseAll(dates, parse);
    if instants.None? {
      return Failure(UnparsedTimestamp);
    }
    var rows := Assemble(bodies, instants.value);
    NoBoundaryNoRows(data);
    return Success(rows);
  }

  lemma NoBoundaryNoRows(data: string)
    ensures (forall j :: 0 <= j < |data| ==> Boundary.MatchAt(data, j).None?) ==> Boundary.FindAll(data) == []
  {
    if forall j :: 0 <= j < |data| ==> Boundary.MatchAt(data, j).None? {
      Boundary.NoBoundaryNoBodies(data);
    }
  }

  /** Normalise and parse every boundary text; one failure fails them all. */
  method ParseAll(dates: seq<string>, parse: string -> Option<Instant>) returns (r: Option<seq<Instant>>)
    ensures r.None? <==> exists k :: 0 <= k < |dates| && parse(Normalize(dates[k])).None?
    ensures r.Some? ==> |r.value| == |dates| && forall k :: 0 <= k < |dates| ==> parse(Normalize(dates[k])) == Some(r.value[k])
  {
    var instants: seq<Instant> := [];
    var i := 0;
    while i < |dates|
      invariant i <= |dates| && |instants| == i
      invariant forall k :: 0 <= k < i ==> parse(Normalize(dates[k])) == Some(instants[k])
    {
      var t := parse(Normalize(dates[i]));
      if t.None? {
        return None;
      }
      instants := instants + [t.value];
      i := i + 1;
    }
    return Some(instants);
  }

  /** The rows from the bodies and the parsed instants, paired by position. */
  method Assemble(bodies: seq<string>, instants: seq<Instant>) returns (rows: seq<Record>)
    requires |bodies| == |instants|
    ensures |rows| == |bodies|
    ensures forall k :: 0 <= k < |rows| ==> rows[k] == RecordOf(bodies[k], instants[k]) && WellFormed(rows[k])
  {
    var users, messages := AttributeAll(bodies);
    var hours := seq(|instants|, k requires 0 <= k < |instants| => instants[k].hour);
    var periods := PeriodColumn(hours);
    rows := [];
    for k := 0 to |instants|
      invariant |rows| == k
      invariant forall j :: 0 <= j < k ==> rows[j] == RecordOf(bodies[j], instants[j]) && WellFormed(rows[j])
    {
      var t := instants[k];
      rows := rows + [Record(users[k], messages[k], t.date, MonthNames[t.date.month - 1],
                             DayNames[t.weekday], t.hour, periods[k])];
    }
  }
}
