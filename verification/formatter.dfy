/**
 `Formatter#to_terminal`: the statistics record rendered as the terminal
 report. A record with posts but without the longest, first or last post, or
 a year chart whose largest count is zero, cannot be rendered: the source
 raises there, and the model returns an error.
 */
module Formatter {
  import opened Outcomes
  import opened Text
  import opened Numerals
  import opened Tables
  import opened Calculator

  /** Why `to_terminal` raises: a `nil` entry dereferenced, or a bar length of `NaN.round`. */
  datatype RenderError = MissingEntry | UndefinedBar

  /** The report's title line: a bar-chart emoji and "Site Statistics". */
  const Title: string := "\U{1F4CA} Site Statistics"

  /** The horizontal rule above and below the report: 35 box-drawing characters. */
  const Rule: string := Repeat('\U{2500}', 35)

  /** What `to_terminal` returns for a record without posts. */
  const NoPosts: string := "No posts found."

  /** `bar_width`. */
  const BarWidth: nat := 20

  /** Only the first ten years are charted and the first ten tags listed. */
  const ListLimit: nat := 10

  // ---------------------------------------------------------------------------
  // format_number
  // ---------------------------------------------------------------------------

  /** `gsub(/(\d{3})(?=\d)/, '\\1,')` on a string of digits: a comma after every three digits
      that another digit follows. */
  function InsertCommas(r: string): string
    decreases |r|
  {
    if |r| > 3 then r[..3] + "," + InsertCommas(r[3..]) else r
  }

  /** `format_number`: the decimal digits reversed, commas inserted, and reversed back. */
  function FormatNumber(n: nat): string {
    Reverse(InsertCommas(Reverse(Dec(n))))
  }

  /** Thousands separators written the usual way: the groups of three digits from the right. */
  function Grouped(n: nat): string
    decreases n
  {
    if n < 1000 then Dec(n) else Grouped(n / 1000) + "," + Pad3(n % 1000)
  }

  lemma DecShort(n: nat)
    requires n < 1000
    ensures |Dec(n)| <= 3
  {
    if n >= 10 {
      var q := n / 10;
      if q >= 10 {
        assert |Dec(q / 10)| == 1;
        assert |Dec(q)| == 2;
      } else {
        assert |Dec(q)| == 1;
      }
      assert |Dec(n)| == |Dec(q)| + 1;
    }
  }

  lemma InsertCommasSplit(a: string, b: string)
    requires |a| == 3 && b != []
    ensures InsertCommas(a + b) == a + "," + InsertCommas(b)
  {
    assert (a + b)[..3] == a && (a + b)[3..] == b;
  }

  lemma ReverseAround(a: string, c: string)
    ensures Reverse(a + "," + c) == Reverse(c) + "," + Reverse(a)
  {
    ReverseAppend(a + ",", c);
    ReverseAppend(a, ",");
  }

  /** `format_number` groups the digits in threes from the right. */
  lemma {:induction false} FormatNumberGrouped(n: nat)
    ensures FormatNumber(n) == Grouped(n)
    decreases n
  {
    if n < 1000 {
      DecShort(n);
      ReverseReverse(Dec(n));
    } else {
      var q := n / 1000;
      var m := n % 1000;
      DecSplitThousands(n);
      ReverseAppend(Dec(q), Pad3(m));
      var a := Reverse(Pad3(m));
      var b := Reverse(Dec(q));
      assert Reverse(Dec(n)) == a + b;
      InsertCommasSplit(a, b);
      ReverseAround(a, InsertCommas(b));
      ReverseReverse(Pad3(m));
      FormatNumberGrouped(q);
      assert FormatNumber(n) == FormatNumber(q) + "," + Pad3(m);
    }
  }

  /** Numbers below one thousand are printed without a separator. */
  lemma FormatNumberSmall(n: nat)
    requires n < 1000
    ensures FormatNumber(n) == Dec(n)
  {
    FormatNumberGrouped(n);
  }

  /** 5000 is printed "5,000". */
  lemma FormatNumberThousands()
    ensures FormatNumber(5000) == "5,000"
  {
    var n := 5000;
    FormatNumberGrouped(n);
    assert n / 1000 == 5 && n % 1000 == 0;
    assert Grouped(n) == Grouped(5) + "," + Pad3(0);
    assert Digit(5) == '5' && Digit(0) == '0';
    assert Pad3(0) == "000";
  }

  lemma Dec123()
    ensures Dec(123) == "123"
  {
    assert Digit(1) == '1' && Digit(2) == '2' && Digit(3) == '3';
    assert Dec(1) == "1";
    assert Dec(12) == "12";
  }

  lemma Pad456()
    ensures Pad3(456) == "456"
  {
    assert Digit(4) == '4' && Digit(5) == '5' && Digit(6) == '6';
  }

  /** 123456 is printed "123,456". */
  lemma FormatNumberSixDigits()
    ensures FormatNumber(123456) == "123,456"
  {
    var n := 123456;
    FormatNumberGrouped(n);
    assert n / 1000 == 123 && n % 1000 == 456;
    assert Grouped(n) == Grouped(123) + "," + Pad3(456);
    Dec123();
    Pad456();
  }

  /** The characters of `s` other than commas. */
  function RemoveCommas(s: string): (r: string)
    ensures |r| <= |s|
  {
    if s == [] then [] else (if s[0] == ',' then [] else [s[0]]) + RemoveCommas(s[1..])
  }

  lemma {:induction false} RemoveCommasAppend(a: string, b: string)
    ensures RemoveCommas(a + b) == RemoveCommas(a) + RemoveCommas(b)
    decreases |a|
  {
    if a == [] {
      assert a + b == b;
    } else {
      assert (a + b)[0] == a[0] && (a + b)[1..] == a[1..] + b;
      RemoveCommasAppend(a[1..], b);
    }
  }

  lemma {:induction false} RemoveCommasDigits(s: string)
    requires AllDigits(s)
    ensures RemoveCommas(s) == s
    decreases |s|
  {
    if s != [] {
      assert IsDigit(s[0]);
      RemoveCommasDigits(s[1..]);
      assert s == [s[0]] + s[1..];
    }
  }

  /** The grouped form is the decimal form with commas added. */
  lemma {:induction false} GroupedDigits(n: nat)
    ensures RemoveCommas(Grouped(n)) == Dec(n)
    decreases n
  {
    if n < 1000 {
      RemoveCommasDigits(Dec(n));
    } else {
      var q := n / 1000;
      var m := n % 1000;
      RemoveCommasAppend(Grouped(q) + ",", Pad3(m));
      RemoveCommasAppend(Grouped(q), ",");
      GroupedDigits(q);
      RemoveCommasDigits(Pad3(m));
      DecSplitThousands(n);
    }
  }

  /** Removing the separators from `format_number`'s output and reading the digits gives `n` back. */
  lemma FormatNumberRoundTrip(n: nat)
    ensures RemoveCommas(FormatNumber(n)) == Dec(n)
    ensures ParseNat(RemoveCommas(FormatNumber(n))) == n
  {
    FormatNumberGrouped(n);
    GroupedDigits(n);
    ParseDec(n);
  }

  // ---------------------------------------------------------------------------
  // format_reading_time, truncate
  // ---------------------------------------------------------------------------

  /** `format_reading_time`: whole hours and the remaining minutes from an hour on, minutes below. */
  function FormatReadingTime(minutes: nat): (r: string)
    ensures r != [] && r[|r| - 1] == 'm'
    ensures 'h' in r <==> minutes >= 60
  {
    if minutes >= 60 then
      var r := Dec(minutes / 60) + "h " + Dec(minutes % 60) + "m";
      assert r[|Dec(minutes / 60)|] == 'h';
      r
    else
      var r := Dec(minutes) + "m";
      assert forall k :: 0 <= k < |r| - 1 ==> r[k] == Dec(minutes)[k];
      r
  }

  /** The number before `h` in `"<h>h <m>m"`, or 0 when there is no `h`. */
  function HoursField(s: string): nat {
    var i := Find(s, 'h');
    if i < |s| then ParseNat(s[..i]) else 0
  }

  /** The number before the final `m`: after `"<h>h "` when there is an `h`, else the whole text. */
  function MinutesField(s: string): nat {
    var i := Find(s, 'h');
    if i == |s| then (if s == [] then 0 else ParseNat(s[..|s| - 1]))
    else if i + 2 <= |s| - 1 then ParseNat(s[i + 2..|s| - 1])
    else 0
  }

  /** Reads `"<h>h <m>m"` or `"<m>m"` back as a number of minutes. */
  function ParseReadingTime(s: string): nat {
    HoursField(s) * 60 + MinutesField(s)
  }

  lemma DigitsHaveNoH(s: string)
    requires AllDigits(s)
    ensures 'h' !in s
  {
    forall k | 0 <= k < |s| ensures s[k] != 'h' {
      assert IsDigit(s[k]);
    }
  }

  /** `ParseReadingTime` inverts `format_reading_time`, and the minutes field stays below 60, so
      the text shows `minutes / 60` hours and `minutes % 60` minutes. */
  lemma ReadingTimeRoundTrip(minutes: nat)
    ensures ParseReadingTime(FormatReadingTime(minutes)) == minutes
    ensures MinutesField(FormatReadingTime(minutes)) < 60
    ensures minutes < 60 ==> HoursField(FormatReadingTime(minutes)) == 0
  {
    var s := FormatReadingTime(minutes);
    if minutes >= 60 {
      var h := Dec(minutes / 60);
      var m := Dec(minutes % 60);
      DigitsHaveNoH(h);
      assert s == h + ['h'] + (" " + m + "m");
      FindAfterPrefix(h, 'h', " " + m + "m");
      assert s[..|h|] == h;
      assert s[|h| + 2..|s| - 1] == m;
      ParseDec(minutes / 60);
      ParseDec(minutes % 60);
    } else {
      assert Find(s, 'h') == |s|;
      assert s[..|s| - 1] == Dec(minutes);
      ParseDec(minutes);
    }
  }

  /** 45 minutes read "45m" and 125 minutes "2h 5m". */
  lemma ReadingTimeExamples()
    ensures FormatReadingTime(45) == "45m"
    ensures FormatReadingTime(125) == "2h 5m"
  {
    assert Dec(45) == "45";
    assert Dec(2) == "2" && Dec(5) == "5";
  }

  /** `truncate(str, length)`: strings longer than `length` are cut to `length` characters and
      marked with an ellipsis. */
  function Truncate(s: string, n: nat): (r: string)
    ensures |s| <= n ==> r == s
    ensures |s| > n ==> |r| == n + 3 && r[..n] == s[..n] && r[n..] == "..."
    ensures |r| <= n + 3
  {
    if |s| <= n then s else s[..n] + "..."
  }

  /** Truncating twice is truncating once: the marked result is cut again at the same place. */
  lemma TruncateIdempotent(s: string, n: nat)
    ensures Truncate(Truncate(s, n), n) == Truncate(s, n)
  {
    var t := Truncate(s, n);
    if |s| > n {
      assert t[..n] + "..." == t;
    }
  }

  // ---------------------------------------------------------------------------
  // posts_by_year_chart
  // ---------------------------------------------------------------------------

  /** `years.map { |y| y[:count] }.max`, 0 for no years. */
  function MaxCount(bs: seq<Bucket<nat>>): (r: nat)
    ensures forall i :: 0 <= i < |bs| ==> bs[i].count <= r
    ensures bs != [] ==> exists i :: 0 <= i < |bs| && bs[i].count == r
    ensures bs == [] ==> r == 0
  {
    if bs == [] then 0
    else
      var rest := MaxCount(bs[1..]);
      assert forall i :: 1 <= i < |bs| ==> bs[i] == bs[1..][i - 1];
      if bs[0].count >= rest then bs[0].count else rest
  }

  /** `((count.to_f / max_count) * bar_width).round`, exactly. */
  function BarLength(count: nat, max: nat): (r: nat)
    requires max > 0
    ensures 2 * r * max <= 2 * BarWidth * count + max < 2 * r * max + 2 * max
  {
    RoundHalfUp(BarWidth * count, max)
  }

  /** The bar of the busiest year is full width, no bar is longer, and an empty year has no bar. */
  lemma BarLengthBounds(count: nat, max: nat)
    requires 0 < max && count <= max
    ensures BarLength(count, max) <= BarWidth
    ensures count == max ==> BarLength(count, max) == BarWidth
    ensures count == 0 ==> BarLength(count, max) == 0
  {
    var r := BarLength(count, max);
    assert 2 * r * max < 42 * max;
    MulLtCancel(2 * r, 42, max);
    MulSucc(2 * r, max);
    MulSucc(2 * r + 1, max);
    if count == max {
      assert 41 * max < (2 * r + 2) * max;
      MulLtCancel(41, 2 * r + 2, max);
    }
    if count == 0 {
      assert 2 * r * max < 2 * max;
      MulLtCancel(2 * r, 2, max);
    }
  }

  /** A busier year has a bar at least as long. */
  lemma BarLengthMonotone(c: nat, d: nat, max: nat)
    requires 0 < max && c <= d
    ensures BarLength(c, max) <= BarLength(d, max)
  {
    var r := BarLength(c, max);
    var s := BarLength(d, max);
    MulSucc(2 * s, max);
    MulSucc(2 * s + 1, max);
    assert 2 * r * max < (2 * s + 2) * max;
    MulLtCancel(2 * r, 2 * s + 2, max);
  }

  /** `"  #{year}: #{bar} #{count}"`. */
  function ChartRow(b: Bucket<nat>, max: nat): string
    requires max > 0
  {
    "  " + Dec(b.key) + ": " + Repeat('\U{2588}', BarLength(b.count, max)) + " " + Dec(b.count)
  }

  function ChartRows(years: seq<Bucket<nat>>, max: nat): (r: seq<string>)
    requires max > 0
    ensures |r| == |years| && forall k :: 0 <= k < |years| ==> r[k] == ChartRow(years[k], max)
  {
    seq(|years|, k requires 0 <= k < |years| => ChartRow(years[k], max))
  }

  /** The first `min(ListLimit, |s|)` entries of `s`: Ruby's `first(10)`. */
  function FirstTen<T>(s: seq<T>): (r: seq<T>)
    ensures |r| == if |s| < ListLimit then |s| else ListLimit
    ensures r == s[..|r|]
  {
    if |s| < ListLimit then s else s[..ListLimit]
  }

  /** `posts_by_year_chart`: empty for no years, undefined when the largest count is zero. */
  function YearChart(years: seq<Bucket<nat>>): (r: Result<string, RenderError>)
    ensures r.Err? <==> years != [] && MaxCount(years) == 0
    ensures years == [] ==> r == Ok("")
  {
    if years == [] then Ok("")
    else if MaxCount(years) == 0 then Err(UndefinedBar)
    else Ok(Join(["Posts by Year:"] + ChartRows(FirstTen(years), MaxCount(years)), "\n"))
  }

  lemma DecNoNewline(n: nat)
    ensures '\n' !in Dec(n)
  {
    var d := Dec(n);
    forall k | 0 <= k < |d| ensures d[k] != '\n' {
      assert IsDigit(d[k]);
    }
  }

  lemma ChartRowNoNewline(b: Bucket<nat>, max: nat)
    requires max > 0
    ensures '\n' !in ChartRow(b, max)
  {
    DecNoNewline(b.key);
    DecNoNewline(b.count);
  }

  lemma ChartPartsNoNewline(years: seq<Bucket<nat>>, max: nat)
    requires max > 0
    ensures var parts := ["Posts by Year:"] + ChartRows(FirstTen(years), max);
      forall k :: 0 <= k < |parts| ==> '\n' !in parts[k]
  {
    var rows := ChartRows(FirstTen(years), max);
    forall k | 0 <= k < |rows| ensures '\n' !in rows[k] {
      ChartRowNoNewline(FirstTen(years)[k], max);
    }
  }

  /** The chart's lines are its heading and one row for each of the first ten years, in order. */
  lemma YearChartLines(years: seq<Bucket<nat>>)
    requires years != [] && MaxCount(years) > 0
    ensures var lines := SplitOn(YearChart(years).value, '\n');
      && |lines| == 1 + |FirstTen(years)|
      && lines[0] == "Posts by Year:"
      && forall k :: 0 <= k < |FirstTen(years)| ==> lines[k + 1] == ChartRow(years[k], MaxCount(years))
  {
    var max := MaxCount(years);
    ChartPartsNoNewline(years, max);
    SplitOnJoin(["Posts by Year:"] + ChartRows(FirstTen(years), max), '\n');
  }

  // ---------------------------------------------------------------------------
  // top_tags, categories_line
  // ---------------------------------------------------------------------------

  /** `"#{name} (#{count})"`. */
  function Entry(b: Bucket<string>): string {
    b.key + " (" + Dec(b.count) + ")"
  }

  function Entries(bs: seq<Bucket<string>>): (r: seq<string>)
    ensures |r| == |bs| && forall k :: 0 <= k < |bs| ==> r[k] == Entry(bs[k])
  {
    seq(|bs|, k requires 0 <= k < |bs| => Entry(bs[k]))
  }

  /** `top_tags`: the number shown and the first ten entries. */
  function TopTags(tags: seq<Bucket<string>>): string {
    "Top " + Dec(|FirstTen(tags)|) + " Tags:\n  " + Join(Entries(FirstTen(tags)), " | ")
  }

  /** `categories_line`: every category entry. */
  function CategoriesLine(cats: seq<Bucket<string>>): string {
    "Categories:\n  " + Join(Entries(cats), " | ")
  }

  lemma InfixAfterPrefix(x: string, a: string, b: string)
    requires IsInfix(x, b)
    ensures IsInfix(x, a + b)
  {
    var i :| InfixAt(x, b, i);
    assert (a + b)[|a| + i..|a| + i + |x|] == b[i..i + |x|];
    assert InfixAt(x, a + b, |a| + i);
  }

  /** Each of the first ten tags appears in the list with its count, and the heading gives their number. */
  lemma TopTagsShowsFirstTen(tags: seq<Bucket<string>>)
    ensures |FirstTen(tags)| <= ListLimit
    ensures forall k :: 0 <= k < |FirstTen(tags)| ==> IsInfix(Entry(tags[k]), TopTags(tags))
  {
    var shown := FirstTen(tags);
    var es := Entries(shown);
    forall k | 0 <= k < |shown| ensures IsInfix(Entry(tags[k]), TopTags(tags)) {
      JoinHasPart(es, " | ", k);
      InfixAfterPrefix(es[k], "Top " + Dec(|shown|) + " Tags:\n  ", Join(es, " | "));
    }
  }

  /** The whole tags block: the heading with the number listed, then the entries of the first
      ten tags, in order, joined by `" | "`; more tags than ten are not listed. */
  lemma TopTagsLayout(tags: seq<Bucket<string>>)
    ensures exists es: seq<string> ::
      && |es| == |FirstTen(tags)| <= ListLimit
      && (|tags| <= ListLimit ==> |es| == |tags|)
      && (forall k :: 0 <= k < |es| ==> es[k] == Entry(tags[k]))
      && TopTags(tags) == "Top " + Dec(|es|) + " Tags:\n  " + Join(es, " | ")
  {
    var shown := FirstTen(tags);
    var es := Entries(shown);
    assert forall k :: 0 <= k < |es| ==> es[k] == Entry(tags[k]);
    assert TopTags(tags) == "Top " + Dec(|es|) + " Tags:\n  " + Join(es, " | ");
  }

  /** Every category appears in the categories line with its count. */
  lemma CategoriesLineShowsAll(cats: seq<Bucket<string>>)
    ensures forall k :: 0 <= k < |cats| ==> IsInfix(Entry(cats[k]), CategoriesLine(cats))
  {
    var es := Entries(cats);
    forall k | 0 <= k < |cats| ensures IsInfix(Entry(cats[k]), CategoriesLine(cats)) {
      JoinHasPart(es, " | ", k);
      InfixAfterPrefix(es[k], "Categories:\n  ", Join(es, " | "));
    }
  }

  // ---------------------------------------------------------------------------
  // post_summary, averages_line, date_range_line, frequency_line
  // ---------------------------------------------------------------------------

  /** `post_summary`. */
  function PostSummary(s: Statistics): string {
    "Posts: " + Dec(s.totalPosts) + " (" + FormatNumber(s.totalWords) + " words, ~"
      + FormatReadingTime(s.readingMinutes) + " read time)"
  }

  /** `averages_line`: the title of the longest post cut to 30 characters. */
  function AveragesLine(avg: nat, longest: PostInfo): string {
    "Avg: " + Dec(avg) + " words | Longest: \"" + Truncate(longest.title, 30) + "\" ("
      + FormatNumber(longest.words) + " words)"
  }

  /** `date_range_line`. */
  function DateRangeLine(first: DatedInfo, last: DatedInfo, yearsActive: nat): string {
    "First: " + first.date + " | Last: " + last.date + " (" + Tenths(yearsActive) + " years)"
  }

  /** `Float#to_s` of a posting rate: "Infinity", or the tenths with one decimal and a sign. */
  function RateText(rate: Rate): string {
    match rate
    case Infinite => "Infinity"
    case Rate(negative, tenths) => (if negative then "-" else "") + Tenths(tenths)
  }

  /** `frequency_line`. */
  function FrequencyLine(postsPerMonth: Rate): string {
    "Frequency: " + RateText(postsPerMonth) + " posts/month"
  }

  /** `a + x + b` contains `x`. */
  lemma InfixMiddle(a: string, x: string, b: string)
    ensures IsInfix(x, a + x + b)
  {
    assert (a + x + b)[|a|..|a| + |x|] == x;
    assert InfixAt(x, a + x + b, |a|);
  }

  lemma SummaryHasCount(n: string, w: string, t: string)
    ensures IsInfix("Posts: " + n, "Posts: " + n + " (" + w + " words, ~" + t + " read time)")
  {
    InfixMiddle("", "Posts: " + n, " (" + w + " words, ~" + t + " read time)");
    assert "Posts: " + n + " (" + w + " words, ~" + t + " read time)"
      == "" + ("Posts: " + n) + (" (" + w + " words, ~" + t + " read time)");
  }

  lemma SummaryHasWords(n: string, w: string, t: string)
    ensures IsInfix(w + " words", "Posts: " + n + " (" + w + " words, ~" + t + " read time)")
  {
    assert " words, ~" == " words" + ", ~";
    assert "Posts: " + n + " (" + w + " words, ~" + t + " read time)"
      == ("Posts: " + n + " (") + (w + " words") + (", ~" + t + " read time)");
    InfixMiddle("Posts: " + n + " (", w + " words", ", ~" + t + " read time)");
  }

  lemma SummaryHasTime(n: string, w: string, t: string)
    ensures IsInfix("~" + t + " read time", "Posts: " + n + " (" + w + " words, ~" + t + " read time)")
  {
    assert " words, ~" == " words, " + "~";
    assert " read time)" == " read time" + ")";
    assert "Posts: " + n + " (" + w + " words, ~" + t + " read time)"
      == ("Posts: " + n + " (" + w + " words, ") + ("~" + t + " read time") + ")";
    InfixMiddle("Posts: " + n + " (" + w + " words, ", "~" + t + " read time", ")");
  }

  /** The summary gives the number of posts, the word total with separators and the reading time. */
  lemma PostSummaryParts(s: Statistics)
    ensures IsInfix("Posts: " + Dec(s.totalPosts), PostSummary(s))
    ensures IsInfix(FormatNumber(s.totalWords) + " words", PostSummary(s))
    ensures IsInfix("~" + FormatReadingTime(s.readingMinutes) + " read time", PostSummary(s))
  {
    var n := Dec(s.totalPosts);
    var w := FormatNumber(s.totalWords);
    var t := FormatReadingTime(s.readingMinutes);
    SummaryHasCount(n, w, t);
    SummaryHasWords(n, w, t);
    SummaryHasTime(n, w, t);
  }

  /** The averages line quotes the longest post's title, cut to 30 characters. */
  lemma AveragesLineQuotesTitle(avg: nat, longest: PostInfo)
    ensures IsInfix("\"" + Truncate(longest.title, 30) + "\"", AveragesLine(avg, longest))
  {
    var a := "Avg: " + Dec(avg) + " words | Longest: ";
    var q := "\"" + Truncate(longest.title, 30) + "\"";
    var b := " (" + FormatNumber(longest.words) + " words)";
    assert " words | Longest: \"" == " words | Longest: " + "\"";
    assert "\" (" == "\"" + " (";
    assert AveragesLine(avg, longest) == a + q + b;
    InfixMiddle(a, q, b);
  }

  /** Each of three parts is an infix of `f + " | " + l + " " + y`. */
  lemma ThreePartsInfix(f: string, l: string, y: string)
    ensures IsInfix(f, f + " | " + l + " " + y)
    ensures IsInfix(l, f + " | " + l + " " + y)
    ensures IsInfix(y, f + " | " + l + " " + y)
  {
    var line := f + " | " + l + " " + y;
    InfixMiddle("", f, " | " + l + " " + y);
    assert "" + f + (" | " + l + " " + y) == line;
    InfixMiddle(f + " | ", l, " " + y);
    assert (f + " | ") + l + (" " + y) == line;
    InfixMiddle(f + " | " + l + " ", y, "");
    assert f + " | " + l + " " + y + "" == line;
  }

  /** The date-range line names both dates and the years active, which read back from their text. */
  lemma DateRangeLineParts(first: DatedInfo, last: DatedInfo, yearsActive: nat)
    ensures IsInfix("First: " + first.date, DateRangeLine(first, last, yearsActive))
    ensures IsInfix("Last: " + last.date, DateRangeLine(first, last, yearsActive))
    ensures IsInfix("(" + Tenths(yearsActive) + " years)", DateRangeLine(first, last, yearsActive))
    ensures ParseTenths(Tenths(yearsActive)) == yearsActive
  {
    var f := "First: " + first.date;
    var l := "Last: " + last.date;
    var y := "(" + Tenths(yearsActive) + " years)";
    assert DateRangeLine(first, last, yearsActive) == f + " | " + l + " " + y;
    ThreePartsInfix(f, l, y);
    TenthsRoundTrip(yearsActive);
  }

  /** The rate sits between the line's fixed words: "Infinity" for an infinite rate, otherwise
      a sign for a negative rate and digits that read back as the number of tenths. */
  lemma FrequencyLineReadsBack(postsPerMonth: Rate)
    ensures var line := FrequencyLine(postsPerMonth);
      var shown := line[11..|line| - 12];
      && |line| > 23 && line[..11] == "Frequency: " && line[|line| - 12..] == " posts/month"
      && (postsPerMonth.Infinite? ==> shown == "Infinity")
      && (postsPerMonth.Rate? && !postsPerMonth.negative ==> ParseTenths(shown) == postsPerMonth.tenths)
      && (postsPerMonth.Rate? && postsPerMonth.negative ==>
            shown[0] == '-' && ParseTenths(shown[1..]) == postsPerMonth.tenths)
  {
    var t := RateText(postsPerMonth);
    var line := FrequencyLine(postsPerMonth);
    assert line == "Frequency: " + t + " posts/month";
    assert |t| >= 3;
    assert line[11..|line| - 12] == t;
    if postsPerMonth.Rate? {
      TenthsRoundTrip(postsPerMonth.tenths);
      if postsPerMonth.negative {
        assert t == "-" + Tenths(postsPerMonth.tenths);
        assert t[1..] == Tenths(postsPerMonth.tenths);
      } else {
        assert t == Tenths(postsPerMonth.tenths);
      }
    }
  }

  /** A year chart has its heading. */
  lemma YearChartHeading(years: seq<Bucket<nat>>)
    requires years != [] && MaxCount(years) > 0
    ensures IsInfix("Posts by Year:", YearChart(years).value)
  {
    var parts := ["Posts by Year:"] + ChartRows(FirstTen(years), MaxCount(years));
    JoinHasPart(parts, "\n", 0);
  }

  lemma ChartRowHead(b: Bucket<nat>, max: nat)
    requires max > 0
    ensures IsInfix("  " + Dec(b.key) + ": ", ChartRow(b, max))
  {
    var head := "  " + Dec(b.key) + ": ";
    var tail := Repeat('\U{2588}', BarLength(b.count, max)) + " " + Dec(b.count);
    assert ChartRow(b, max) == "" + head + tail;
    InfixMiddle("", head, tail);
  }

  lemma ChartHasRow(years: seq<Bucket<nat>>, k: nat)
    requires years != [] && MaxCount(years) > 0 && k < |FirstTen(years)|
    ensures IsInfix(ChartRow(years[k], MaxCount(years)), YearChart(years).value)
  {
    var max := MaxCount(years);
    var shown := FirstTen(years);
    var rows := ChartRows(shown, max);
    var parts := ["Posts by Year:"] + rows;
    assert shown[k] == years[k];
    assert rows[k] == ChartRow(years[k], max);
    assert parts[k + 1] == rows[k];
    JoinHasPart(parts, "\n", k + 1);
  }

  /** Each of the first ten years has a row in the chart that starts with the year. */
  lemma YearChartShowsYear(years: seq<Bucket<nat>>, k: nat)
    requires years != [] && MaxCount(years) > 0 && k < |FirstTen(years)|
    ensures IsInfix("  " + Dec(years[k].key) + ": ", YearChart(years).value)
  {
    var row := ChartRow(years[k], MaxCount(years));
    ChartRowHead(years[k], MaxCount(years));
    ChartHasRow(years, k);
    InfixTransitive("  " + Dec(years[k].key) + ": ", row, YearChart(years).value);
  }

  /** The tag heading gives the number of tags listed. */
  lemma TopTagsHeading(tags: seq<Bucket<string>>)
    ensures IsInfix("Top " + Dec(|FirstTen(tags)|) + " Tags:", TopTags(tags))
  {
    var h := "Top " + Dec(|FirstTen(tags)|) + " Tags:";
    var rest := "\n  " + Join(Entries(FirstTen(tags)), " | ");
    assert " Tags:\n  " == " Tags:" + "\n  ";
    assert TopTags(tags) == "" + h + rest;
    InfixMiddle("", h, rest);
  }

  // ---------------------------------------------------------------------------
  // to_terminal
  // ---------------------------------------------------------------------------

  /** The parts of the report, each one or more consecutive lines. */
  datatype Block =
    | Banner | Summary | Averages | DateRange | Frequency | YearChartBlock
    | TopTagsBlock | CategoriesBlock | DraftsBlock | Footer

  /** The position of each part in the report. */
  function Rank(b: Block): nat {
    match b
    case Banner => 0
    case Summary => 1
    case Averages => 2
    case DateRange => 3
    case Frequency => 4
    case YearChartBlock => 5
    case TopTagsBlock => 6
    case CategoriesBlock => 7
    case DraftsBlock => 8
    case Footer => 9
  }

  /** Every part, in report order. */
  const Order: seq<Block> := [
    Banner, Summary, Averages, DateRange, Frequency, YearChartBlock,
    TopTagsBlock, CategoriesBlock, DraftsBlock, Footer]

  /** Which parts a record with posts shows: tags, categories and drafts only when there are any. */
  predicate Shown(b: Block, s: Statistics) {
    match b
    case TopTagsBlock => s.tags != []
    case CategoriesBlock => s.categories != []
    case DraftsBlock => s.draftsCount > 0
    case _ => true
  }

  predicate Ascending(bs: seq<Block>) {
    forall i, j :: 0 <= i < j < |bs| ==> Rank(bs[i]) < Rank(bs[j])
  }

  lemma AscendingTail(bs: seq<Block>)
    requires bs != [] && Ascending(bs)
    ensures Ascending(bs[1..])
  {
    var tail := bs[1..];
    forall i, j | 0 <= i < j < |tail| ensures Rank(tail[i]) < Rank(tail[j]) {
      assert tail[i] == bs[i + 1] && tail[j] == bs[j + 1];
    }
  }

  lemma AscendingHead(bs: seq<Block>, b: Block)
    requires bs != [] && Ascending(bs) && b in bs[1..]
    ensures Rank(bs[0]) < Rank(b)
  {
    var tail := bs[1..];
    var k :| 0 <= k < |tail| && tail[k] == b;
    assert bs[k + 1] == b;
  }

  lemma AscendingCons(b: Block, rest: seq<Block>)
    requires Ascending(rest)
    requires forall c :: c in rest ==> Rank(b) < Rank(c)
    ensures Ascending([b] + rest)
  {
    var r := [b] + rest;
    forall i, j | 0 <= i < j < |r| ensures Rank(r[i]) < Rank(r[j]) {
      assert r[j] == rest[j - 1];
      if i == 0 {
        assert r[j] in rest;
      } else {
        assert r[i] == rest[i - 1];
      }
    }
  }

  /** The parts of `bs` that `s` shows, in their order. */
  function Select(bs: seq<Block>, s: Statistics): (r: seq<Block>)
    ensures forall b :: b in r <==> b in bs && Shown(b, s)
  {
    if bs == [] then [] else (if Shown(bs[0], s) then [bs[0]] else []) + Select(bs[1..], s)
  }

  /** Selecting keeps the order. */
  lemma {:induction false} SelectAscending(bs: seq<Block>, s: Statistics)
    requires Ascending(bs)
    ensures Ascending(Select(bs, s))
    decreases |bs|
  {
    if bs != [] {
      var rest := Select(bs[1..], s);
      AscendingTail(bs);
      SelectAscending(bs[1..], s);
      if Shown(bs[0], s) {
        forall c | c in rest ensures Rank(bs[0]) < Rank(c) {
          AscendingHead(bs, c);
        }
        AscendingCons(bs[0], rest);
        assert Select(bs, s) == [bs[0]] + rest;
      } else {
        assert Select(bs, s) == rest;
      }
    }
  }

  lemma OrderFacts()
    ensures Ascending(Order)
    ensures forall b :: b in Order
    ensures Order[0] == Banner
  {
    forall b ensures b in Order {
      assert Order[Rank(b)] == b;
    }
  }

  /** The parts `to_terminal` emits for a record with posts: each part it shows, once, in order,
      from the banner to the footer. */
  function Layout(s: Statistics): (r: seq<Block>)
    ensures Ascending(r)
    ensures forall b :: b in r <==> Shown(b, s)
    ensures r != [] && r[0] == Banner && r[|r| - 1] == Footer
  {
    OrderFacts();
    var r := Select(Order, s);
    SelectAscending(Order, s);
    assert Banner in r && Footer in r;
    FirstAndLast(r);
    r
  }

  /** In an ascending list holding the banner and the footer, they come first and last. */
  lemma FirstAndLast(r: seq<Block>)
    requires Ascending(r) && Banner in r && Footer in r
    ensures r[0] == Banner && r[|r| - 1] == Footer
  {
    var i :| 0 <= i < |r| && r[i] == Banner;
    var j :| 0 <= j < |r| && r[j] == Footer;
    assert i == 0 by {
      assert Rank(r[0]) >= Rank(r[i]);
    }
    assert j == |r| - 1 by {
      assert Rank(r[|r| - 1]) <= Rank(r[j]);
    }
  }

  /** The entries the report dereferences are present. */
  predicate Renderable(s: Statistics) {
    s.longestPost.Some? && s.firstPost.Some? && s.lastPost.Some?
  }

  /** The lines of one part; a part after the first five is set off by an empty line. */
  function BlockLines(b: Block, s: Statistics, chart: string): (r: seq<string>)
    requires Renderable(s)
  {
    match b
    case Banner => ["", Title, Rule]
    case Summary => [PostSummary(s)]
    case Averages => [AveragesLine(s.averageWords, s.longestPost.value)]
    case DateRange => [DateRangeLine(s.firstPost.value, s.lastPost.value, s.yearsActive)]
    case Frequency => [FrequencyLine(s.postsPerMonth)]
    case YearChartBlock => ["", chart]
    case TopTagsBlock => ["", TopTags(s.tags)]
    case CategoriesBlock => ["", CategoriesLine(s.categories)]
    case DraftsBlock => ["", "Drafts: " + Dec(s.draftsCount)]
    case Footer => [Rule, ""]
  }

  function LinesOf(bs: seq<Block>, s: Statistics, chart: string): seq<string>
    requires Renderable(s)
  {
    if bs == [] then [] else BlockLines(bs[0], s, chart) + LinesOf(bs[1..], s, chart)
  }

  /** `to_terminal`. */
  function ToTerminal(s: Statistics): (r: Result<string, RenderError>)
    ensures s.totalPosts == 0 ==> r == Ok(NoPosts)
    ensures r.Err? <==> s.totalPosts > 0 && (!Renderable(s) || YearChart(s.postsByYear).Err?)
  {
    if s.totalPosts == 0 then Ok(NoPosts)
    else if !Renderable(s) then Err(MissingEntry)
    else
      match YearChart(s.postsByYear)
      case Err(e) => Err(e)
      case Ok(chart) => Ok(Join(LinesOf(Layout(s), s, chart), "\n"))
  }
}
