/**
 Properties of the rendered report as a whole: its first and last lines,
 the lines each shown part contributes, and that every record `calculate`
 produces renders.
 */
module ReportLemmas {
  import opened Outcomes
  import opened Text
  import opened Tables
  import opened Numerals
  import opened Posts
  import opened Calculator
  import opened CalculatorLemmas
  import opened Formatter

  lemma {:induction false} LinesOfAppend(a: seq<Block>, b: seq<Block>, s: Statistics, chart: string)
    requires Renderable(s)
    ensures LinesOf(a + b, s, chart) == LinesOf(a, s, chart) + LinesOf(b, s, chart)
    decreases |a|
  {
    if a == [] {
      assert a + b == b;
    } else {
      assert (a + b)[0] == a[0] && (a + b)[1..] == a[1..] + b;
      LinesOfAppend(a[1..], b, s, chart);
    }
  }

  lemma {:induction false} LinesOfHas(bs: seq<Block>, k: nat, s: Statistics, chart: string)
    requires Renderable(s) && k < |bs|
    ensures forall l :: l in BlockLines(bs[k], s, chart) ==> l in LinesOf(bs, s, chart)
    decreases |bs|
  {
    if k > 0 {
      LinesOfHas(bs[1..], k - 1, s, chart);
    }
  }

  /** The chart the report embeds, for a record that renders. */
  function ChartOf(s: Statistics): string
    requires YearChart(s.postsByYear).Ok?
  {
    YearChart(s.postsByYear).value
  }

  lemma LayoutEnds(s: Statistics)
    ensures var l := Layout(s);
      && |l| >= 2 && l[0] == Banner && l == l[..|l| - 1] + [Footer]
  {
    var l := Layout(s);
    assert Banner in l && Footer in l;
  }

  lemma LinesOfBanner(bs: seq<Block>, s: Statistics, chart: string)
    requires Renderable(s) && bs != [] && bs[0] == Banner
    ensures |LinesOf(bs, s, chart)| >= 3 && LinesOf(bs, s, chart)[0] == ""
  {
    assert BlockLines(Banner, s, chart) == ["", Title, Rule];
  }

  /** The report's lines open with the banner's empty line and close with the rule and an empty line. */
  lemma LinesFrame(s: Statistics, chart: string)
    requires Renderable(s)
    ensures var lines := LinesOf(Layout(s), s, chart);
      && |lines| >= 3 && lines[0] == "" && lines[|lines| - 2] == Rule && lines[|lines| - 1] == ""
  {
    var l := Layout(s);
    var init := l[..|l| - 1];
    LayoutEnds(s);
    LinesOfAppend(init, [Footer], s, chart);
    assert BlockLines(Footer, s, chart) == [Rule, ""];
    assert LinesOf([Footer], s, chart) == [Rule, ""];
    LinesOfBanner(init, s, chart);
  }

  /** Joining lines that start with an empty line and end with `x` and an empty line. */
  lemma JoinFrame(lines: seq<string>, x: string)
    requires |lines| >= 3 && lines[0] == "" && lines[|lines| - 2] == x && lines[|lines| - 1] == ""
    ensures var out := Join(lines, "\n");
      && out[0] == '\n' && |out| >= |x| + 2 && out[|out| - |x| - 2..] == "\n" + x + "\n"
  {
    var head := lines[..|lines| - 2];
    assert lines == head + [x] + [""];
    JoinSnoc(head + [x], "\n", "");
    JoinSnoc(head, "\n", x);
    var out := Join(lines, "\n");
    assert out == Join(head, "\n") + "\n" + x + "\n";
    assert out == "" + "\n" + Join(lines[1..], "\n");
  }

  /** A report with posts starts with an empty line and ends with the rule and an empty line,
      so it is never the no-posts message. */
  lemma ReportFrame(s: Statistics)
    requires s.totalPosts > 0 && ToTerminal(s).Ok?
    ensures var out := ToTerminal(s).value;
      && out != NoPosts
      && out[0] == '\n'
      && |out| >= |Rule| + 2
      && out[|out| - |Rule| - 2..] == "\n" + Rule + "\n"
  {
    LinesFrame(s, ChartOf(s));
    JoinFrame(LinesOf(Layout(s), s, ChartOf(s)), Rule);
    assert NoPosts[0] != '\n';
  }

  /** Every line of a part the layout shows is part of the report. */
  lemma ShownLine(s: Statistics, b: Block, line: string)
    requires s.totalPosts > 0 && ToTerminal(s).Ok?
    requires Shown(b, s) && line in BlockLines(b, s, ChartOf(s))
    ensures IsInfix(line, ToTerminal(s).value)
  {
    var chart := ChartOf(s);
    var l := Layout(s);
    var k :| 0 <= k < |l| && l[k] == b;
    LinesOfHas(l, k, s, chart);
    var lines := LinesOf(l, s, chart);
    var i :| 0 <= i < |lines| && lines[i] == line;
    JoinHasPart(lines, "\n", i);
  }

  /** The summary, averages, date range and frequency lines and the year chart are always shown. */
  lemma ReportHasFixedLines(s: Statistics)
    requires s.totalPosts > 0 && ToTerminal(s).Ok?
    ensures var out := ToTerminal(s).value;
      && IsInfix(PostSummary(s), out)
      && IsInfix(AveragesLine(s.averageWords, s.longestPost.value), out)
      && IsInfix(DateRangeLine(s.firstPost.value, s.lastPost.value, s.yearsActive), out)
      && IsInfix(FrequencyLine(s.postsPerMonth), out)
      && IsInfix(ChartOf(s), out)
  {
    ShownLine(s, Summary, PostSummary(s));
    ShownLine(s, Averages, AveragesLine(s.averageWords, s.longestPost.value));
    ShownLine(s, DateRange, DateRangeLine(s.firstPost.value, s.lastPost.value, s.yearsActive));
    ShownLine(s, Frequency, FrequencyLine(s.postsPerMonth));
    ShownLine(s, YearChartBlock, ChartOf(s));
  }

  /** A record with drafts reports their number. */
  lemma ReportShowsDrafts(s: Statistics)
    requires s.totalPosts > 0 && ToTerminal(s).Ok? && s.draftsCount > 0
    ensures IsInfix("Drafts: " + Dec(s.draftsCount), ToTerminal(s).value)
  {
    ShownLine(s, DraftsBlock, "Drafts: " + Dec(s.draftsCount));
  }

  /** Each of the ten most used tags appears in the report with its count. */
  lemma ReportShowsTopTags(s: Statistics)
    requires s.totalPosts > 0 && ToTerminal(s).Ok?
    ensures forall k :: 0 <= k < |FirstTen(s.tags)| ==> IsInfix(Entry(s.tags[k]), ToTerminal(s).value)
  {
    if s.tags != [] {
      ShownLine(s, TopTagsBlock, TopTags(s.tags));
      TopTagsShowsFirstTen(s.tags);
      forall k | 0 <= k < |FirstTen(s.tags)| ensures IsInfix(Entry(s.tags[k]), ToTerminal(s).value) {
        InfixTransitive(Entry(s.tags[k]), TopTags(s.tags), ToTerminal(s).value);
      }
    }
  }

  /** Every category appears in the report with its count. */
  lemma ReportShowsCategories(s: Statistics)
    requires s.totalPosts > 0 && ToTerminal(s).Ok?
    ensures forall k :: 0 <= k < |s.categories| ==> IsInfix(Entry(s.categories[k]), ToTerminal(s).value)
  {
    if s.categories != [] {
      ShownLine(s, CategoriesBlock, CategoriesLine(s.categories));
      CategoriesLineShowsAll(s.categories);
      forall k | 0 <= k < |s.categories| ensures IsInfix(Entry(s.categories[k]), ToTerminal(s).value) {
        InfixTransitive(Entry(s.categories[k]), CategoriesLine(s.categories), ToTerminal(s).value);
      }
    }
  }

  /** The report gives the number of posts, the grouped word total and the reading time. */
  lemma ReportShowsSummary(s: Statistics)
    requires s.totalPosts > 0 && ToTerminal(s).Ok?
    ensures IsInfix("Posts: " + Dec(s.totalPosts), ToTerminal(s).value)
    ensures IsInfix(Grouped(s.totalWords) + " words", ToTerminal(s).value)
    ensures IsInfix("~" + FormatReadingTime(s.readingMinutes) + " read time", ToTerminal(s).value)
  {
    var out := ToTerminal(s).value;
    ShownLine(s, Summary, PostSummary(s));
    PostSummaryParts(s);
    FormatNumberGrouped(s.totalWords);
    InfixTransitive("Posts: " + Dec(s.totalPosts), PostSummary(s), out);
    InfixTransitive(Grouped(s.totalWords) + " words", PostSummary(s), out);
    InfixTransitive("~" + FormatReadingTime(s.readingMinutes) + " read time", PostSummary(s), out);
  }

  /** The report quotes the longest post's title, cut to 30 characters. */
  lemma ReportShowsLongestTitle(s: Statistics)
    requires s.totalPosts > 0 && ToTerminal(s).Ok?
    ensures IsInfix("\"" + Truncate(s.longestPost.value.title, 30) + "\"", ToTerminal(s).value)
  {
    var line := AveragesLine(s.averageWords, s.longestPost.value);
    ShownLine(s, Averages, line);
    AveragesLineQuotesTitle(s.averageWords, s.longestPost.value);
    InfixTransitive("\"" + Truncate(s.longestPost.value.title, 30) + "\"", line, ToTerminal(s).value);
  }

  /** The report charts each of the first ten years under its heading. */
  lemma ReportShowsYears(s: Statistics)
    requires s.totalPosts > 0 && ToTerminal(s).Ok? && s.postsByYear != []
    ensures IsInfix("Posts by Year:", ToTerminal(s).value)
    ensures forall k :: 0 <= k < |FirstTen(s.postsByYear)| ==>
      IsInfix("  " + Dec(s.postsByYear[k].key) + ": ", ToTerminal(s).value)
  {
    var out := ToTerminal(s).value;
    var chart := ChartOf(s);
    ShownLine(s, YearChartBlock, chart);
    YearChartHeading(s.postsByYear);
    InfixTransitive("Posts by Year:", chart, out);
    forall k | 0 <= k < |FirstTen(s.postsByYear)|
      ensures IsInfix("  " + Dec(s.postsByYear[k].key) + ": ", out)
    {
      YearChartShowsYear(s.postsByYear, k);
      InfixTransitive("  " + Dec(s.postsByYear[k].key) + ": ", chart, out);
    }
  }

  /** With tags, the report's tag heading gives how many are listed. */
  lemma ReportShowsTagHeading(s: Statistics)
    requires s.totalPosts > 0 && ToTerminal(s).Ok? && s.tags != []
    ensures IsInfix("Top " + Dec(|FirstTen(s.tags)|) + " Tags:", ToTerminal(s).value)
  {
    ShownLine(s, TopTagsBlock, TopTags(s.tags));
    TopTagsHeading(s.tags);
    InfixTransitive("Top " + Dec(|FirstTen(s.tags)|) + " Tags:", TopTags(s.tags), ToTerminal(s).value);
  }

  /** A table whose counts add up to a positive number has a positive largest count. */
  lemma {:induction false} PositiveMax(bs: seq<Bucket<nat>>)
    requires SumCounts(bs) > 0
    ensures MaxCount(bs) > 0
    decreases |bs|
  {
    if bs[0].count == 0 {
      PositiveMax(bs[1..]);
      var i :| 0 <= i < |bs[1..]| && bs[1..][i].count == MaxCount(bs[1..]);
      assert bs[i + 1] == bs[1..][i];
    }
  }

  /** The record `calculate` builds for posts can be rendered. */
  lemma SummaryRenders(posts: seq<Post>, drafts: nat)
    requires posts != []
    ensures ToTerminal(Summarize(posts, drafts)).Ok?
  {
    var s := Summarize(posts, drafts);
    assert s.postsByYear == YearTable(posts);
    YearTableFacts(posts);
    PositiveMax(s.postsByYear);
  }

  /** With posts collected, `calculate` returns their summary. */
  lemma CalculateSummarizes(site: Site, includeDrafts: bool, filterTags: Option<seq<string>>)
    requires CollectPosts(site, includeDrafts, NormalizeFilterTags(filterTags)).Ok?
    requires CollectPosts(site, includeDrafts, NormalizeFilterTags(filterTags)).value != []
    ensures Calculate(site, includeDrafts, filterTags)
      == Ok(Summarize(CollectPosts(site, includeDrafts, NormalizeFilterTags(filterTags)).value, DraftsCount(site)))
  {
  }

  /** Whatever `calculate` returns renders, and the report is the no-posts message exactly when
      no post was collected. */
  lemma CalculatedReport(site: Site, includeDrafts: bool, filterTags: Option<seq<string>>)
    requires !(includeDrafts && site.drafts.DraftsNil?)
    ensures Calculate(site, includeDrafts, filterTags).Ok?
    ensures var report := ToTerminal(Calculate(site, includeDrafts, filterTags).value);
      && report.Ok?
      && (report.value == NoPosts <==> CollectPosts(site, includeDrafts, NormalizeFilterTags(filterTags)).value == [])
  {
    var posts := CollectPosts(site, includeDrafts, NormalizeFilterTags(filterTags)).value;
    if posts != [] {
      CalculateSummarizes(site, includeDrafts, filterTags);
      var s := Summarize(posts, DraftsCount(site));
      SummaryRenders(posts, DraftsCount(site));
      ReportFrame(s);
    }
  }
}
