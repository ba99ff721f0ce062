/**
 * The queries the dashboard runs over the rows `preprocess` returns. Each
 * query (but the busiest-senders one) first narrows the rows to one sender
 * unless "Overall" is selected, then counts words, media, links, emojis,
 * messages per month, day, weekday or hour period.
 */
module Helper {
  import opened Common
  import opened Text
  import opened Counting
  import opened Preprocessor

  /** The picker entry that stands for every sender. */
  const Overall := "Overall"

  /** The text an export holds in place of an attachment. */
  const MediaOmitted := "<Media omitted>\n"

  // ---------------------------------------------------------------------
  // Columns and the sender filter.

  function UserOf(r: Record): string { r.user }
  function MessageOf(r: Record): string { r.message }
  function DateOf(r: Record): Date { r.date }
  function MonthNameOf(r: Record): string { r.monthName }
  function DayNameOf(r: Record): string { r.dayName }
  function PeriodOf(r: Record): string { r.period }

  /** `df[df['user'] == u]`: the rows sent by `u`, in their order. */
  function OfUser(u: string, rs: seq<Record>): (r: seq<Record>)
    ensures forall x :: multiset(r)[x] == (if x.user == u then multiset(rs)[x] else 0)
  {
    if rs == [] then []
    else
      assert rs == [rs[0]] + rs[1..];
      (if rs[0].user == u then [rs[0]] else []) + OfUser(u, rs[1..])
  }

  /** The mask keeps order: filtering a concatenation filters each part, in turn. */
  lemma {:induction false} OfUserAppend(u: string, a: seq<Record>, b: seq<Record>)
    ensures OfUser(u, a + b) == OfUser(u, a) + OfUser(u, b)
    decreases |a|
  {
    if a == [] {
      assert a + b == b;
    } else {
      assert (a + b)[1..] == a[1..] + b;
      OfUserAppend(u, a[1..], b);
    }
  }

  /** One row is kept exactly when its sender is `u`. */
  lemma OfUserSingle(u: string, x: Record)
    ensures OfUser(u, [x]) == if x.user == u then [x] else []
  {
    assert [x][1..] == [];
  }

  /** The rows a query reads: all of them for "Overall", otherwise those of the selected sender. */
  function Select(user: string, rs: seq<Record>): seq<Record> {
    if user == Overall then rs else OfUser(user, rs)
  }

  /** The selected sender's rows are as many as the sender's entries in the user column. */
  lemma {:induction false} OfUserCount(u: string, rs: seq<Record>)
    ensures |OfUser(u, rs)| == multiset(Map(rs, UserOf))[u]
    decreases |rs|
  {
    if rs != [] {
      OfUserCount(u, rs[1..]);
      OfUserStep(u, rs);
      UserColumnStep(u, rs);
    }
  }

  lemma OfUserStep(u: string, rs: seq<Record>)
    requires rs != []
    ensures |OfUser(u, rs)| == (if rs[0].user == u then 1 else 0) + |OfUser(u, rs[1..])|
  {
  }

  lemma UserColumnStep(u: string, rs: seq<Record>)
    requires rs != []
    ensures multiset(Map(rs, UserOf))[u] == (if rs[0].user == u then 1 else 0) + multiset(Map(rs[1..], UserOf))[u]
  {
    assert Map(rs, UserOf) == [rs[0].user] + Map(rs[1..], UserOf);
  }

  /** How many rows a query reads. */
  lemma SelectCount(user: string, rs: seq<Record>)
    ensures user == Overall ==> Select(user, rs) == rs
    ensures user != Overall ==> |Select(user, rs)| == multiset(Map(rs, UserOf))[user]
    ensures user != Overall ==> forall k :: 0 <= k < |Select(user, rs)| ==> Select(user, rs)[k].user == user
  {
    if user != Overall {
      OfUserCount(user, rs);
      var r := OfUser(user, rs);
      forall k | 0 <= k < |r| ensures r[k].user == user {
        assert multiset(r)[r[k]] > 0;
      }
    }
  }

  // ---------------------------------------------------------------------
  // `fetch_stats`.

  /**
   * `fetch_stats(selected_user, df)`: the number of messages, of words
   * (whitespace tokens), of media placeholders and of links, with
   * `findUrls` standing for `URLExtract.find_urls`.
   */
  method FetchStats(user: string, rs: seq<Record>, findUrls: string -> seq<string>)
    returns (numMessages: nat, numWords: nat, numMedia: nat, numLinks: nat)
    ensures var msgs := Map(Select(user, rs), MessageOf);
      && numMessages == |msgs|
      && numWords == |WordsOfAll(msgs)| == |Words(Join(" ", msgs))|
      && numMedia == multiset(msgs)[MediaOmitted]
      && numLinks == |FlatMap(msgs, findUrls)|
    ensures numMedia <= numMessages
    ensures user == Overall ==> numMessages == |rs|
    ensures user != Overall ==> numMessages == multiset(Map(rs, UserOf))[user]
  {
    var df := Select(user, rs);
    var msgs := Map(df, MessageOf);
    numMessages := |df|;
    var words := AllWords(msgs);
    numMedia := multiset(msgs)[MediaOmitted];
    var links := AllLinks(msgs, findUrls);
    numWords := |words|;
    numLinks := |links|;
    WordsOfJoin(msgs);
    CountBound(msgs, MediaOmitted);
    SelectCount(user, rs);
  }

  /** The source's word loop: `words.extend(message.split())` for every message. */
  method AllWords(msgs: seq<string>) returns (words: seq<string>)
    ensures words == WordsOfAll(msgs)
  {
    words := [];
    for i := 0 to |msgs|
      invariant words == WordsOfAll(msgs[..i])
    {
      WordsOfAllPrefix(msgs, i);
      words := words + Words(msgs[i]);
    }
    assert msgs[..|msgs|] == msgs;
  }

  /** The source's link loop: `links.extend(extract.find_urls(message))` for every message. */
  method AllLinks(msgs: seq<string>, findUrls: string -> seq<string>) returns (links: seq<string>)
    ensures links == FlatMap(msgs, findUrls)
  {
    links := [];
    for i := 0 to |msgs|
      invariant links == FlatMap(msgs[..i], findUrls)
    {
      FlatMapPrefix(msgs, i, findUrls);
      links := links + findUrls(msgs[i]);
    }
    assert msgs[..|msgs|] == msgs;
  }

  // ---------------------------------------------------------------------
  // `most_busy_users`.

  /**
   * `df['user'].value_counts().head()`: at most five senders with their
   * exact message counts, largest first; group notifications count like any
   * sender, and no sender left out has more messages than one kept.
   */
  function MostBusyUsers(rs: seq<Record>): (r: seq<(string, nat)>)
    ensures |r| <= 5 && Exact(Map(rs, UserOf), r) && Descending(r) && Distinct(Keys(r))
    ensures forall u :: u in Map(rs, UserOf) && u !in Keys(r) ==>
      forall k :: 0 <= k < |r| ==> multiset(Map(rs, UserOf))[u] <= r[k].1
    ensures |r| < 5 ==> forall u :: u in Map(rs, UserOf) ==> u in Keys(r)
  {
    var r := MostCommon(Map(rs, UserOf), 5);
    RankedDescending(Map(rs, UserOf), r);
    r
  }

  // ---------------------------------------------------------------------
  // The word queries.

  /** The rows the word queries read: no group notifications and no media placeholders. */
  function Content(rs: seq<Record>): (r: seq<Record>)
    ensures forall k :: 0 <= k < |r| ==> r[k].user != GroupNotification && r[k].message != MediaOmitted
    ensures forall x :: multiset(r)[x] == (if Counted(x) then multiset(rs)[x] else 0)
  {
    if rs == [] then []
    else
      assert rs == [rs[0]] + rs[1..];
      (if Counted(rs[0]) then [rs[0]] else []) + Content(rs[1..])
  }

  /** The mask keeps order: filtering a concatenation filters each part, in turn. */
  lemma {:induction false} ContentAppend(a: seq<Record>, b: seq<Record>)
    ensures Content(a + b) == Content(a) + Content(b)
    decreases |a|
  {
    if a == [] {
      assert a + b == b;
    } else {
      assert (a + b)[1..] == a[1..] + b;
      ContentAppend(a[1..], b);
    }
  }

  /** One row is kept exactly when it is counted. */
  lemma ContentSingle(x: Record)
    ensures Content([x]) == if Counted(x) then [x] else []
  {
    assert [x][1..] == [];
  }

  /** `(df['user'] != 'group_notification') & (df['message'] != '<Media omitted>\n')`. */
  predicate Counted(r: Record) {
    r.user != GroupNotification && r.message != MediaOmitted
  }

  /** The words of `ws` that are not stopwords, in order. */
  function Unstopped(ws: seq<string>, stop: seq<string>): (r: seq<string>)
    ensures forall k :: 0 <= k < |r| ==> r[k] in ws && r[k] !in stop
  {
    if ws == [] then []
    else (if ws[0] in stop then [] else [ws[0]]) + Unstopped(ws[1..], stop)
  }

  lemma UnstoppedPrefix(ws: seq<string>, j: nat, stop: seq<string>)
    requires j < |ws|
    ensures Unstopped(ws[..j + 1], stop) == Unstopped(ws[..j], stop) + (if ws[j] in stop then [] else [ws[j]])
  {
    assert ws[..j + 1] == ws[..j] + [ws[j]];
    UnstoppedAppend(ws[..j], ws[j], stop);
  }

  lemma {:induction false} UnstoppedAppend(ws: seq<string>, w: string, stop: seq<string>)
    ensures Unstopped(ws + [w], stop) == Unstopped(ws, stop) + (if w in stop then [] else [w])
    decreases |ws|
  {
    if ws != [] {
      assert (ws + [w])[1..] == ws[1..] + [w];
      UnstoppedAppend(ws[1..], w, stop);
    } else {
      assert [] + [w] == [w];
    }
  }

  /** The words of a message that count: lower-cased, split on whitespace, stopwords dropped. */
  function Clean(message: string, stop: seq<string>): seq<string> {
    Unstopped(Words(Lower(message)), stop)
  }

  /** The words the word queries count, message after message. */
  function ContentWords(rs: seq<Record>, stop: seq<string>): seq<string> {
    if rs == [] then [] else Clean(rs[0].message, stop) + ContentWords(rs[1..], stop)
  }

  lemma ContentWordsPrefix(rs: seq<Record>, i: nat, stop: seq<string>)
    requires i < |rs|
    ensures ContentWords(rs[..i + 1], stop) == ContentWords(rs[..i], stop) + Clean(rs[i].message, stop)
  {
    assert rs[..i + 1] == rs[..i] + [rs[i]];
    ContentWordsAppend(rs[..i], rs[i], stop);
  }

  lemma {:induction false} ContentWordsAppend(rs: seq<Record>, r: Record, stop: seq<string>)
    ensures ContentWords(rs + [r], stop) == ContentWords(rs, stop) + Clean(r.message, stop)
    decreases |rs|
  {
    if rs != [] {
      assert (rs + [r])[1..] == rs[1..] + [r];
      ContentWordsAppend(rs[1..], r, stop);
    } else {
      assert [] + [r] == [r];
    }
  }

  /** Every counted word is a lower-case whitespace token that is not a stopword. */
  lemma {:induction false} ContentWordsClean(rs: seq<Record>, stop: seq<string>)
    ensures forall k :: 0 <= k < |ContentWords(rs, stop)| ==>
      var w := ContentWords(rs, stop)[k];
      IsWord(w) && w !in stop && Lower(w) == w
    decreases |rs|
  {
    if rs != [] {
      ContentWordsClean(rs[1..], stop);
      CleanWords(rs[0].message, stop);
      var c := Clean(rs[0].message, stop);
      var ws := ContentWords(rs, stop);
      assert ws == c + ContentWords(rs[1..], stop);
      forall k | 0 <= k < |ws| ensures IsWord(ws[k]) && ws[k] !in stop && Lower(ws[k]) == ws[k] {
        if k >= |c| {
          assert ws[k] == ContentWords(rs[1..], stop)[k - |c|];
        }
      }
    }
  }

  lemma CleanWords(message: string, stop: seq<string>)
    ensures forall k :: 0 <= k < |Clean(message, stop)| ==>
      var w := Clean(message, stop)[k];
      IsWord(w) && w !in stop && Lower(w) == w
  {
    var ws := Words(Lower(message));
    WordsOfLower(message);
    forall k | 0 <= k < |Clean(message, stop)| ensures IsWord(Clean(message, stop)[k]) && Lower(Clean(message, stop)[k]) == Clean(message, stop)[k] {
      var i :| 0 <= i < |ws| && ws[i] == Clean(message, stop)[k];
    }
  }

  /** The cleaned text of every row, in order. */
  function Cleaned(rs: seq<Record>, stop: seq<string>): (texts: seq<string>)
    ensures |texts| == |rs|
  {
    if rs == [] then [] else [Join(" ", Clean(rs[0].message, stop))] + Cleaned(rs[1..], stop)
  }

  /**
   * The text `create_wordcloud` hands to `WordCloud.generate`: nothing when
   * no row is left once group notifications and media placeholders are set
   * aside, otherwise every row's cleaned text joined with single spaces.
   */
  function WordcloudCorpus(user: string, rs: seq<Record>, stop: seq<string>): (r: Option<string>)
    ensures r.None? <==> Content(Select(user, rs)) == []
  {
    var temp := Content(Select(user, rs));
    if temp == [] then None else Some(Join(" ", Cleaned(temp, stop)))
  }

  /** The word cloud is drawn from exactly the words `most_common_words` counts. */
  lemma WordcloudWords(user: string, rs: seq<Record>, stop: seq<string>)
    ensures WordcloudCorpus(user, rs, stop).Some? ==>
      Words(WordcloudCorpus(user, rs, stop).value) == ContentWords(Content(Select(user, rs)), stop)
  {
    var temp := Content(Select(user, rs));
    WordsOfJoin(Cleaned(temp, stop));
    CleanedWords(temp, stop);
  }

  lemma {:induction false} CleanedWords(rs: seq<Record>, stop: seq<string>)
    ensures WordsOfAll(Cleaned(rs, stop)) == ContentWords(rs, stop)
    decreases |rs|
  {
    if rs != [] {
      CleanedWords(rs[1..], stop);
      CleanWords(rs[0].message, stop);
      SplitJoinRoundTrip(Clean(rs[0].message, stop));
      assert Cleaned(rs, stop)[1..] == Cleaned(rs[1..], stop);
    }
  }

  /**
   * `most_common_words(selected_user, df)`: the twenty most frequent counted
   * words with their exact counts, largest first and ties in the order the
   * words first appear.
   */
  method MostCommonWords(user: string, rs: seq<Record>, stop: seq<string>) returns (r: seq<(string, nat)>)
    ensures r == MostCommon(ContentWords(Content(Select(user, rs)), stop), 20)
    ensures |r| <= 20
    ensures forall k :: 0 <= k < |r| ==> IsWord(r[k].0) && r[k].0 !in stop && Lower(r[k].0) == r[k].0
  {
    var temp := Content(Select(user, rs));
    var words := CollectWords(temp, stop);
    r := MostCommon(words, 20);
    ContentWordsClean(temp, stop);
  }

  /** The source's nested word loop: every lower-cased token of every message that is not a stopword. */
  method CollectWords(temp: seq<Record>, stop: seq<string>) returns (words: seq<string>)
    ensures words == ContentWords(temp, stop)
  {
    words := [];
    for i := 0 to |temp|
      invariant words == ContentWords(temp[..i], stop)
    {
      var ws := Words(Lower(temp[i].message));
      for j := 0 to |ws|
        invariant words == ContentWords(temp[..i], stop) + Unstopped(ws[..j], stop)
      {
        UnstoppedPrefix(ws, j, stop);
        if ws[j] !in stop {
          words := words + [ws[j]];
        }
      }
      assert ws[..|ws|] == ws;
      ContentWordsPrefix(temp, i, stop);
    }
    assert temp[..|temp|] == temp;
  }

  // ---------------------------------------------------------------------
  // `emoji_helper`.

  /** The characters of `m` that are emojis, in order. */
  function EmojisOf(m: string, isEmoji: char -> bool): (es: string)
    ensures forall c :: multiset(es)[c] == if isEmoji(c) then multiset(m)[c] else 0
  {
    if m == [] then []
    else
      assert m == [m[0]] + m[1..];
      (if isEmoji(m[0]) then [m[0]] else []) + EmojisOf(m[1..], isEmoji)
  }

  /** The comprehension keeps order: the emojis of a concatenation are those of each part, in turn. */
  lemma {:induction false} EmojisOfAppend(a: string, b: string, isEmoji: char -> bool)
    ensures EmojisOf(a + b, isEmoji) == EmojisOf(a, isEmoji) + EmojisOf(b, isEmoji)
    decreases |a|
  {
    if a == [] {
      assert a + b == b;
    } else {
      assert (a + b)[1..] == a[1..] + b;
      EmojisOfAppend(a[1..], b, isEmoji);
    }
  }

  /** One character is kept exactly when it is an emoji. */
  lemma EmojisOfSingle(c: char, isEmoji: char -> bool)
    ensures EmojisOf([c], isEmoji) == if isEmoji(c) then [c] else []
  {
    assert [c][1..] == [];
  }

  function EmojiFilter(isEmoji: char -> bool): string -> string {
    m => EmojisOf(m, isEmoji)
  }

  /** Every emoji character of the selected messages, in order. */
  function Emojis(user: string, rs: seq<Record>, isEmoji: char -> bool): string {
    FlatMap(Map(Select(user, rs), MessageOf), EmojiFilter(isEmoji))
  }

  /** There are no emojis exactly when no character of any selected message is one. */
  lemma EmojisNone(user: string, rs: seq<Record>, isEmoji: char -> bool)
    ensures Emojis(user, rs, isEmoji) == [] <==>
      forall m, c :: m in Map(Select(user, rs), MessageOf) && c in m ==> !isEmoji(c)
  {
    FlatMapEmpty(Map(Select(user, rs), MessageOf), isEmoji);
  }

  lemma {:induction false} FlatMapEmpty(msgs: seq<string>, isEmoji: char -> bool)
    ensures FlatMap(msgs, EmojiFilter(isEmoji)) == [] <==> forall m, c :: m in msgs && c in m ==> !isEmoji(c)
    decreases |msgs|
  {
    if msgs != [] {
      FlatMapEmpty(msgs[1..], isEmoji);
      var es := EmojisOf(msgs[0], isEmoji);
      assert EmojiFilter(isEmoji)(msgs[0]) == es;
      if es != [] {
        assert multiset(es)[es[0]] > 0;
        assert es[0] in msgs[0] && isEmoji(es[0]);
      } else {
        forall c | c in msgs[0] ensures !isEmoji(c) {
          assert multiset(es)[c] == 0;
        }
      }
      assert forall m :: m in msgs <==> m == msgs[0] || m in msgs[1..];
    }
  }

  /**
   * `emoji_helper(selected_user, df)`: every emoji once with its exact count,
   * largest first and ties in first-seen order; empty when there is no
   * emoji. The counts add up to the number of emoji characters.
   */
  method EmojiHelper(user: string, rs: seq<Record>, isEmoji: char -> bool) returns (r: seq<(char, nat)>)
    ensures r == ValueCounts(Emojis(user, rs, isEmoji))
    ensures r == [] <==> Emojis(user, rs, isEmoji) == []
    ensures Total(r) == |Emojis(user, rs, isEmoji)|
  {
    var emojis := CollectEmojis(Map(Select(user, rs), MessageOf), isEmoji);
    RankingOfNone(emojis);
    if |emojis| == 0 {
      return [];
    }
    r := MostCommon(emojis, |Count(emojis)|);
    AllOfRanking(emojis);
  }

  /** The source's emoji loop: the emoji characters of every message, one message after the other. */
  method CollectEmojis(msgs: seq<string>, isEmoji: char -> bool) returns (emojis: string)
    ensures emojis == FlatMap(msgs, EmojiFilter(isEmoji))
  {
    emojis := [];
    for i := 0 to |msgs|
      invariant emojis == FlatMap(msgs[..i], EmojiFilter(isEmoji))
    {
      FlatMapPrefix(msgs, i, EmojiFilter(isEmoji));
      emojis := emojis + EmojiFilter(isEmoji)(msgs[i]);
    }
    assert msgs[..|msgs|] == msgs;
  }

  /** Nothing to count gives an empty ranking, and only then. */
  lemma RankingOfNone<T>(xs: seq<T>)
    ensures ValueCounts(xs) == [] <==> xs == []
  {
    if xs != [] {
      assert xs[0] in Keys(ValueCounts(xs));
    }
  }

  /** Asking `most_common` for as many entries as there are values gives the whole ranking. */
  lemma AllOfRanking<T>(xs: seq<T>)
    requires xs != []
    ensures MostCommon(xs, |Count(xs)|) == ValueCounts(xs) != []
  {
    var v := ValueCounts(xs);
    ValueCountsLength(xs);
    assert Take(v, |Count(xs)|) == v;
    assert xs[0] in Keys(v);
  }

  // ---------------------------------------------------------------------
  // The timelines.

  /** A month of a year. */
  type YearMonth = (nat, MonthNumber)

  function YearMonthOf(r: Record): YearMonth { (r.date.year, r.date.month) }

  /** Months numbered consecutively, January of year 0 first. */
  function MonthKey(ym: YearMonth): int { ym.0 * 12 + ym.1 - 1 }

  /** Calendar order of months. */
  predicate MonthBefore(a: YearMonth, b: YearMonth) {
    a.0 < b.0 || (a.0 == b.0 && a.1 < b.1)
  }

  /** Numbering months keeps them apart and in calendar order. */
  lemma MonthKeyOrder(a: YearMonth, b: YearMonth)
    ensures MonthKey(a) < MonthKey(b) <==> MonthBefore(a, b)
    ensures MonthKey(a) == MonthKey(b) ==> a == b
  {
    if a.0 < b.0 {
      assert a.0 * 12 + 12 <= b.0 * 12;
    } else if a.0 > b.0 {
      assert b.0 * 12 + 12 <= a.0 * 12;
    }
  }

  lemma MonthKeyInjective()
    ensures Injective(MonthKey)
  {
    forall a, b | MonthKey(a) == MonthKey(b) ensures a == b {
      MonthKeyOrder(a, b);
    }
  }

  /** One row of `monthly_timeline`: the month, its name, its number of messages and the label `month-year`. */
  datatype MonthRow = MonthRow(year: nat, month: MonthNumber, monthName: string, count: nat, time: string)

  function MonthRowOf(e: (YearMonth, nat)): MonthRow {
    var name := MonthNames[e.0.1 - 1];
    MonthRow(e.0.0, e.0.1, name, e.1, name + "-" + Numeral(e.0.0))
  }

  /** The message counts of a timeline, added up. */
  function MonthRowsTotal(rows: seq<MonthRow>): nat {
    if rows == [] then 0 else rows[0].count + MonthRowsTotal(rows[1..])
  }

  lemma {:induction false} MonthRowsTotalIs(g: seq<(YearMonth, nat)>)
    ensures MonthRowsTotal(Map(g, MonthRowOf)) == Total(g)
    decreases |g|
  {
    if g != [] {
      MonthRowsTotalIs(g[1..]);
      assert Map(g, MonthRowOf)[1..] == Map(g[1..], MonthRowOf);
    }
  }

  /**
   * `monthly_timeline(selected_user, df)`: one row per month that has
   * messages, in calendar order, with the exact number of messages of that
   * month; the counts add up to the number of selected rows.
   */
  function MonthlyTimeline(user: string, rs: seq<Record>): (rows: seq<MonthRow>)
    ensures var yms := Map(Select(user, rs), YearMonthOf);
      && (forall i, j :: 0 <= i < j < |rows| ==> MonthBefore((rows[i].year, rows[i].month), (rows[j].year, rows[j].month)))
      && (forall i :: 0 <= i < |rows| ==>
            (rows[i].year, rows[i].month) in yms && rows[i].count == multiset(yms)[(rows[i].year, rows[i].month)])
      && (forall ym :: ym in yms ==> exists i :: 0 <= i < |rows| && (rows[i].year, rows[i].month) == ym)
      && MonthRowsTotal(rows) == |Select(user, rs)|
    ensures forall i :: 0 <= i < |rows| ==>
      rows[i].monthName == MonthNames[rows[i].month - 1] && rows[i].time == rows[i].monthName + "-" + Numeral(rows[i].year)
  {
    var yms := Map(Select(user, rs), YearMonthOf);
    MonthKeyInjective();
    var g := GroupCount(yms, MonthKey);
    MonthlyOrder(g);
    MonthlyCounts(yms, g);
    MonthlyCover(yms, g);
    MonthRowsTotalIs(g);
    Map(g, MonthRowOf)
  }

  /** The rows built from month groups ordered by number are in calendar order. */
  lemma MonthlyOrder(g: seq<(YearMonth, nat)>)
    requires Increasing(g, MonthKey)
    ensures var rows := Map(g, MonthRowOf);
      forall i, j :: 0 <= i < j < |rows| ==> MonthBefore((rows[i].year, rows[i].month), (rows[j].year, rows[j].month))
  {
    var rows := Map(g, MonthRowOf);
    forall i, j | 0 <= i < j < |rows| ensures MonthBefore((rows[i].year, rows[i].month), (rows[j].year, rows[j].month)) {
      MonthKeyOrder(g[i].0, g[j].0);
    }
  }

  /** The rows built from exact month groups count each month exactly. */
  lemma MonthlyCounts(yms: seq<YearMonth>, g: seq<(YearMonth, nat)>)
    requires Exact(yms, g)
    ensures var rows := Map(g, MonthRowOf);
      forall i :: 0 <= i < |rows| ==>
        (rows[i].year, rows[i].month) in yms && rows[i].count == multiset(yms)[(rows[i].year, rows[i].month)]
  {
    var rows := Map(g, MonthRowOf);
    forall i | 0 <= i < |rows|
      ensures (rows[i].year, rows[i].month) in yms && rows[i].count == multiset(yms)[(rows[i].year, rows[i].month)]
    {
      assert (rows[i].year, rows[i].month) == g[i].0;
    }
  }

  /** Every month that has messages has a row. */
  lemma MonthlyCover(yms: seq<YearMonth>, g: seq<(YearMonth, nat)>)
    requires forall ym :: ym in yms ==> ym in Keys(g)
    ensures var rows := Map(g, MonthRowOf);
      forall ym :: ym in yms ==> exists i :: 0 <= i < |rows| && (rows[i].year, rows[i].month) == ym
  {
    var rows := Map(g, MonthRowOf);
    forall ym | ym in yms ensures exists i :: 0 <= i < |rows| && (rows[i].year, rows[i].month) == ym {
      var i :| 0 <= i < |g| && Keys(g)[i] == ym;
      assert (rows[i].year, rows[i].month) == ym;
    }
  }

  /** Calendar order of dates. */
  predicate DateBefore(a: Date, b: Date) {
    || a.year < b.year
    || (a.year == b.year && a.month < b.month)
    || (a.year == b.year && a.month == b.month && a.day < b.day)
  }

  /** Dates numbered so that every month has 31 days. */
  function DayKey(d: Date): int { d.year * 372 + (d.month - 1) * 31 + d.day - 1 }

  /** Numbering dates keeps them apart and in calendar order. */
  lemma DayKeyOrder(a: Date, b: Date)
    ensures DayKey(a) < DayKey(b) <==> DateBefore(a, b)
    ensures DayKey(a) == DayKey(b) ==> a == b
  {
    if a.year < b.year {
      assert a.year * 372 + 372 <= b.year * 372;
    } else if a.year > b.year {
      assert b.year * 372 + 372 <= a.year * 372;
    } else if a.month < b.month {
      assert (a.month - 1) * 31 + 31 <= (b.month - 1) * 31;
    } else if a.month > b.month {
      assert (b.month - 1) * 31 + 31 <= (a.month - 1) * 31;
    }
  }

  lemma DayKeyInjective()
    ensures Injective(DayKey)
  {
    forall a, b | DayKey(a) == DayKey(b) ensures a == b {
      DayKeyOrder(a, b);
    }
  }

  /**
   * `daily_timeline(selected_user, df)`: one row per date that has
   * messages, oldest first, with the exact number of messages of that date;
   * the counts add up to the number of selected rows.
   */
  function DailyTimeline(user: string, rs: seq<Record>): (rows: seq<(Date, nat)>)
    ensures forall i, j :: 0 <= i < j < |rows| ==> DateBefore(rows[i].0, rows[j].0)
    ensures Exact(Map(Select(user, rs), DateOf), rows)
    ensures forall d :: d in Map(Select(user, rs), DateOf) ==> d in Keys(rows)
    ensures Total(rows) == |Select(user, rs)|
  {
    DayKeyInjective();
    var rows := GroupCount(Map(Select(user, rs), DateOf), DayKey);
    forall i, j | 0 <= i < j < |rows| ensures DateBefore(rows[i].0, rows[j].0) {
      DayKeyOrder(rows[i].0, rows[j].0);
    }
    rows
  }

  // ---------------------------------------------------------------------
  // The activity maps.

  /**
   * `week_activity_map(selected_user, df)`: every weekday that has messages,
   * once, with its exact number of messages, largest first.
   */
  function WeekActivityMap(user: string, rs: seq<Record>): (r: seq<(string, nat)>)
    ensures Exact(Map(Select(user, rs), DayNameOf), r) && Descending(r) && Distinct(Keys(r))
    ensures forall d :: d in Map(Select(user, rs), DayNameOf) ==> d in Keys(r)
    ensures Total(r) == |Select(user, rs)|
  {
    var r := ValueCounts(Map(Select(user, rs), DayNameOf));
    RankedDescending(Map(Select(user, rs), DayNameOf), r);
    RankedDistinct(Map(Select(user, rs), DayNameOf), r);
    r
  }

  /**
   * `month_activity_map(selected_user, df)`: every month name that has
   * messages, once, with its exact number of messages, largest first.
   */
  function MonthActivityMap(user: string, rs: seq<Record>): (r: seq<(string, nat)>)
    ensures Exact(Map(Select(user, rs), MonthNameOf), r) && Descending(r) && Distinct(Keys(r))
    ensures forall m :: m in Map(Select(user, rs), MonthNameOf) ==> m in Keys(r)
    ensures Total(r) == |Select(user, rs)|
  {
    var r := ValueCounts(Map(Select(user, rs), MonthNameOf));
    RankedDescending(Map(Select(user, rs), MonthNameOf), r);
    RankedDistinct(Map(Select(user, rs), MonthNameOf), r);
    r
  }

  // ---------------------------------------------------------------------
  // `activity_heatmap`.

  /** A cell of the pivot table: missing (NaN) or a number of messages. */
  datatype Cell = Blank | Number(n: nat)

  /** A pivot table: row labels, column labels, and one row of cells per row label. */
  datatype Heatmap = Heatmap(rows: seq<string>, columns: seq<string>, cells: seq<seq<Cell>>)

  function DayPeriodOf(r: Record): (string, string) { (r.dayName, r.period) }

  /** The periods of the rows sent on weekday `day`, in order. */
  function PeriodsOn(rs: seq<Record>, day: string): (ps: seq<string>)
    ensures |ps| == multiset(Map(rs, DayNameOf))[day]
    ensures forall p :: multiset(ps)[p] == multiset(Map(rs, DayPeriodOf))[(day, p)]
  {
    if rs == [] then []
    else
      assert Map(rs, DayNameOf) == [rs[0].dayName] + Map(rs[1..], DayNameOf);
      assert Map(rs, DayPeriodOf) == [DayPeriodOf(rs[0])] + Map(rs[1..], DayPeriodOf);
      (if rs[0].dayName == day then [rs[0].period] else []) + PeriodsOn(rs[1..], day)
  }

  /** How often each column's period occurs in `ps`. */
  function CountRow(ps: seq<string>, columns: seq<string>): (row: seq<Cell>)
    ensures |row| == |columns|
  {
    if columns == [] then [] else [Number(multiset(ps)[columns[0]])] + CountRow(ps, columns[1..])
  }

  /** The row of weekday `day`: counts after `fillna(0)`, or all missing when the day has no row to pivot. */
  function HeatRow(rs: seq<Record>, day: string, columns: seq<string>): (row: seq<Cell>)
    ensures |row| == |columns|
  {
    if day in Map(rs, DayNameOf) then CountRow(PeriodsOn(rs, day), columns)
    else seq(|columns|, c => Blank)
  }

  function Grid(rs: seq<Record>, days: seq<string>, columns: seq<string>): (cells: seq<seq<Cell>>)
    ensures |cells| == |days|
  {
    if days == [] then [] else [HeatRow(rs, days[0], columns)] + Grid(rs, days[1..], columns)
  }

  /**
   * `activity_heatmap(selected_user, df)`: a pivot of message counts by
   * weekday and period, its columns the periods that occur in ascending
   * order, reindexed to the weekdays Monday to Sunday.
   */
  function ActivityHeatmap(user: string, rs: seq<Record>): Heatmap {
    var sel := Select(user, rs);
    var columns := Sort(Keys(Count(Map(sel, PeriodOf))));
    Heatmap(DayNames, columns, Grid(sel, DayNames, columns))
  }

  /** A cell of `CountRow` is the number of occurrences of its column's period. */
  lemma {:induction false} CountRowAt(ps: seq<string>, columns: seq<string>, c: nat)
    requires c < |columns|
    ensures CountRow(ps, columns)[c] == Number(multiset(ps)[columns[c]])
    decreases c
  {
    if c > 0 {
      CountRowAt(ps, columns[1..], c - 1);
    }
  }

  lemma {:induction false} GridAt(rs: seq<Record>, days: seq<string>, columns: seq<string>, d: nat)
    requires d < |days|
    ensures Grid(rs, days, columns)[d] == HeatRow(rs, days[d], columns)
    decreases d
  {
    if d > 0 {
      GridAt(rs, days[1..], columns, d - 1);
    }
  }

  /**
   * The heatmap's shape and cells: the rows are the weekdays in order; the
   * columns are the periods that occur, each once, ascending; a weekday
   * without messages is a row of missing cells, and every other cell holds
   * the number of messages sent on that weekday in that period.
   */
  lemma ActivityHeatmapCells(user: string, rs: seq<Record>, d: nat, c: nat)
    requires d < 7
    ensures var h := ActivityHeatmap(user, rs);
      && h.rows == DayNames && |h.cells| == 7 && |h.cells[d]| == |h.columns|
      && (forall i, j :: 0 <= i < j < |h.columns| ==> Less(h.columns[i], h.columns[j]))
      && (forall p :: p in h.columns <==> p in Map(Select(user, rs), PeriodOf))
      && (c < |h.columns| ==>
            && (h.cells[d][c] == Blank <==> DayNames[d] !in Map(Select(user, rs), DayNameOf))
            && (h.cells[d][c].Number? ==>
                  h.cells[d][c].n == multiset(Map(Select(user, rs), DayPeriodOf))[(DayNames[d], h.columns[c])]))
  {
    var sel := Select(user, rs);
    var ps := Map(sel, PeriodOf);
    var h := ActivityHeatmap(user, rs);
    ColumnsOf(ps);
    GridAt(sel, DayNames, h.columns, d);
    if c < |h.columns| && DayNames[d] in Map(sel, DayNameOf) {
      CountRowAt(PeriodsOn(sel, DayNames[d]), h.columns, c);
    }
  }

  /** The columns of the pivot: the periods that occur, each once, ascending. */
  lemma ColumnsOf(ps: seq<string>)
    ensures var columns := Sort(Keys(Count(ps)));
      && Distinct(columns)
      && (forall i, j :: 0 <= i < j < |columns| ==> Less(columns[i], columns[j]))
      && (forall p :: p in columns <==> p in ps)
  {
    var ks := Keys(Count(ps));
    var columns := Sort(ks);
    SortStrict(ks);
    forall i, j | 0 <= i < j < |columns| ensures columns[i] != columns[j] {
      LessIrreflexive(columns[i]);
    }
    forall p ensures p in columns <==> p in ps {
      assert p in columns <==> p in multiset(columns);
      assert p in ks <==> p in multiset(ks);
    }
  }

  /** Missing cells count as nothing. */
  function CellValue(c: Cell): nat {
    if c.Blank? then 0 else c.n
  }

  function RowSum(row: seq<Cell>): nat {
    if row == [] then 0 else CellValue(row[0]) + RowSum(row[1..])
  }

  function GridSum(cells: seq<seq<Cell>>): nat {
    if cells == [] then 0 else RowSum(cells[0]) + GridSum(cells[1..])
  }

  lemma {:induction false} CountRowSum(ps: seq<string>, columns: seq<string>)
    ensures RowSum(CountRow(ps, columns)) == Occurrences(columns, ps)
    decreases |columns|
  {
    if columns != [] {
      CountRowSum(ps, columns[1..]);
      assert CountRow(ps, columns)[1..] == CountRow(ps, columns[1..]);
    }
  }

  lemma {:induction false} BlankRowSum(n: nat)
    ensures RowSum(seq(n, c => Blank)) == 0
    decreases n
  {
    if n > 0 {
      assert seq(n, c => Blank)[1..] == seq(n - 1, c => Blank);
      BlankRowSum(n - 1);
    }
  }

  /** A weekday's row adds up to the number of messages sent on that weekday. */
  lemma HeatRowSum(rs: seq<Record>, day: string, columns: seq<string>)
    requires Distinct(columns)
    requires forall p :: p in Map(rs, PeriodOf) ==> p in columns
    ensures RowSum(HeatRow(rs, day, columns)) == multiset(Map(rs, DayNameOf))[day]
  {
    if day in Map(rs, DayNameOf) {
      var ps := PeriodsOn(rs, day);
      CountRowSum(ps, columns);
      forall p | p in ps ensures p in columns {
        assert multiset(ps)[p] > 0;
        assert (day, p) in Map(rs, DayPeriodOf);
        var k :| 0 <= k < |rs| && Map(rs, DayPeriodOf)[k] == (day, p);
        assert Map(rs, PeriodOf)[k] == p;
      }
      CoverSum(columns, ps);
    } else {
      BlankRowSum(|columns|);
    }
  }

  lemma {:induction false} GridSumIs(rs: seq<Record>, days: seq<string>, columns: seq<string>)
    requires Distinct(columns)
    requires forall p :: p in Map(rs, PeriodOf) ==> p in columns
    ensures GridSum(Grid(rs, days, columns)) == Occurrences(days, Map(rs, DayNameOf))
    decreases |days|
  {
    if days != [] {
      GridSumIs(rs, days[1..], columns);
      HeatRowSum(rs, days[0], columns);
      assert Grid(rs, days, columns)[1..] == Grid(rs, days[1..], columns);
    }
  }

  /**
   * Every selected message lands in exactly one cell: the cells add up to
   * the number of selected rows, given rows whose weekday name is one of
   * the seven (as every row `preprocess` builds is).
   */
  lemma ActivityHeatmapTotal(user: string, rs: seq<Record>)
    requires forall k :: 0 <= k < |rs| ==> WellFormed(rs[k])
    ensures GridSum(ActivityHeatmap(user, rs).cells) == |Select(user, rs)|
  {
    var sel := Select(user, rs);
    var ps := Map(sel, PeriodOf);
    var columns := Sort(Keys(Count(ps)));
    ColumnsOf(ps);
    GridSumIs(sel, DayNames, columns);
    SelectWellFormed(user, rs);
    DayNamesDistinct();
    DayNamesCover(sel);
    CoverSum(DayNames, Map(sel, DayNameOf));
  }

  lemma DayNamesDistinct()
    ensures Distinct(DayNames)
  {
  }

  lemma DayNamesCover(rs: seq<Record>)
    requires forall k :: 0 <= k < |rs| ==> WellFormed(rs[k])
    ensures forall x :: x in Map(rs, DayNameOf) ==> x in DayNames
  {
    forall x | x in Map(rs, DayNameOf) ensures x in DayNames {
      var k :| 0 <= k < |rs| && Map(rs, DayNameOf)[k] == x;
      assert WellFormed(rs[k]);
    }
  }

  /** The rows a query reads are rows of the table. */
  lemma SelectWellFormed(user: string, rs: seq<Record>)
    requires forall k :: 0 <= k < |rs| ==> WellFormed(rs[k])
    ensures forall k :: 0 <= k < |Select(user, rs)| ==> WellFormed(Select(user, rs)[k])
  {
    var sel := Select(user, rs);
    forall k | 0 <= k < |sel| ensures WellFormed(sel[k]) {
      if user != Overall {
        assert multiset(sel)[sel[k]] > 0;
        assert sel[k] in rs;
      }
    }
  }
}
