/**
 `StatsCalculator#calculate`: from the collected posts to the statistics
 record. Float results are kept exact: `reading_minutes` by ceiling division,
 `average_words` by rounding half up, `years_active` as a whole number of
 tenths, and `posts_per_month` as a signed number of tenths or an infinity.
 */
module Calculator {
  import opened Outcomes
  import opened Text
  import opened Numerals
  import opened Tables
  import opened Markup
  import opened Posts

  /** `WORDS_PER_MINUTE`. */
  const WordsPerMinute: nat := 200

  /** A tenth of a year of 365.25 days, in seconds: `years_active` rounds seconds / 86400 / 365.25
      to one decimal, that is seconds / 3155760 to a whole number of tenths. */
  const SecondsPerTenthYear: nat := 3155760

  /** `post_info`: the `longest_post` and `shortest_post` entries. */
  datatype PostInfo = PostInfo(title: string, url: string, words: nat)

  /** `post_info_with_date`: the `first_post` and `last_post` entries. */
  datatype DatedInfo = DatedInfo(title: string, url: string, date: string)

  /** The `Float` that `posts_per_month` returns: a signed number of tenths, or the infinity of a
      division by a zero month span. `Rate(true, 0)` is Ruby's `-0.0`. */
  datatype Rate = Rate(negative: bool, tenths: nat) | Infinite

  /** The hash `calculate` returns, without `generated_at`. `yearsActive` is in tenths. */
  datatype Statistics = Statistics(
    totalPosts: nat,
    totalWords: nat,
    readingMinutes: nat,
    averageWords: nat,
    longestPost: Option<PostInfo>,
    shortestPost: Option<PostInfo>,
    firstPost: Option<DatedInfo>,
    lastPost: Option<DatedInfo>,
    yearsActive: nat,
    postsPerMonth: Rate,
    postsByYear: seq<Bucket<nat>>,
    postsByMonth: seq<Bucket<string>>,
    postsByDayOfWeek: seq<Bucket<string>>,
    tags: seq<Bucket<string>>,
    categories: seq<Bucket<string>>,
    draftsCount: nat)

  /** The keys of `posts_by_day_of_week`, indexed by `Time#wday`. */
  const DayNames: seq<string> := ["sunday", "monday", "tuesday", "wednesday", "thursday", "friday", "saturday"]

  lemma DayNamesDistinct()
    ensures |DayNames| == 7
    ensures forall i, j :: 0 <= i < j < 7 ==> DayNames[i] != DayNames[j]
  {
  }

  /** `empty_stats`: the record for no posts. */
  function EmptyStats(): (s: Statistics)
    ensures s.totalPosts == 0 && s.totalWords == 0 && s.readingMinutes == 0 && s.averageWords == 0
    ensures s.longestPost.None? && s.shortestPost.None? && s.firstPost.None? && s.lastPost.None?
    ensures s.yearsActive == 0 && s.postsPerMonth == Rate(false, 0)
    ensures s.postsByYear == [] && s.postsByMonth == [] && s.tags == [] && s.categories == []
    ensures |s.postsByDayOfWeek| == 7
    ensures forall i :: 0 <= i < 7 ==> s.postsByDayOfWeek[i] == Bucket(DayNames[i], 0)
    ensures s.draftsCount == 0
  {
    Statistics(0, 0, 0, 0, None, None, None, None, 0, Rate(false, 0), [], [], DayRows([], 0), [], [], 0)
  }

  // ---------------------------------------------------------------------------
  // Per-post values
  // ---------------------------------------------------------------------------

  /** `post.data["title"] || "(untitled)"`. */
  function TitleOf(p: Post): string {
    if p.title.Some? then p.title.value else "(untitled)"
  }

  /** `strftime("%Y-%m-%d")`. */
  function DateString(d: Timestamp): string {
    PadZeros(Dec(d.year), 4) + "-" + PadZeros(Dec(d.month), 2) + "-" + PadZeros(Dec(d.day), 2)
  }

  /** `strftime("%Y-%m")`, the key of `posts_by_month`. */
  function MonthKey(d: Timestamp): string {
    PadZeros(Dec(d.year), 4) + "-" + PadZeros(Dec(d.month), 2)
  }

  /** A post paired with its word count, as in `word_counts`. */
  datatype Scored = Scored(post: Post, words: nat)

  function Score(posts: seq<Post>): (r: seq<Scored>)
    ensures |r| == |posts|
    ensures forall i :: 0 <= i < |posts| ==> r[i] == Scored(posts[i], WordCount(posts[i].content))
  {
    seq(|posts|, i requires 0 <= i < |posts| => Scored(posts[i], WordCount(posts[i].content)))
  }

  function SumWords(ss: seq<Scored>): nat {
    if ss == [] then 0 else ss[0].words + SumWords(ss[1..])
  }

  /** The sum of the posts' word counts, post by post. */
  function TotalWords(posts: seq<Post>): nat {
    if posts == [] then 0 else WordCount(posts[0].content) + TotalWords(posts[1..])
  }

  function InfoOf(x: Scored): PostInfo {
    PostInfo(TitleOf(x.post), x.post.url, x.words)
  }

  function DatedInfoOf(p: Post): DatedInfo {
    DatedInfo(TitleOf(p), p.url, DateString(p.date))
  }

  // ---------------------------------------------------------------------------
  // Sort keys
  // ---------------------------------------------------------------------------

  /** `sort_by { |_, count| -count }` on word counts. */
  predicate ByWordsDescending(a: Scored, b: Scored) {
    a.words >= b.words
  }

  /** `sort_by { |p| p.date }`. */
  predicate ByDate(a: Post, b: Post) {
    a.date.instant <= b.date.instant
  }

  /** `sort_by { |year, _| -year }`. */
  predicate ByYearDescending(a: Bucket<nat>, b: Bucket<nat>) {
    a.key >= b.key
  }

  /** `sort_by { |month, _| month }`. */
  predicate ByKey(a: Bucket<string>, b: Bucket<string>) {
    LexLe(a.key, b.key)
  }

  /** `sort_by { |_, count| -count }` on a tag or category table. */
  predicate ByCountDescending(a: Bucket<string>, b: Bucket<string>) {
    a.count >= b.count
  }

  lemma WordsOrderIsPreorder()
    ensures TotalPreorder(ByWordsDescending)
  {
  }

  lemma DateOrderIsPreorder()
    ensures TotalPreorder(ByDate)
  {
  }

  lemma YearOrderIsPreorder()
    ensures TotalPreorder(ByYearDescending)
  {
  }

  lemma CountOrderIsPreorder()
    ensures TotalPreorder(ByCountDescending)
  {
  }

  /** Ruby's string order on keys is total and transitive. */
  lemma KeyOrderIsPreorder()
    ensures TotalPreorder(ByKey)
  {
    forall a: Bucket<string>, b: Bucket<string> ensures ByKey(a, b) || ByKey(b, a) {
      LexTotal(a.key, b.key);
    }
    forall a: Bucket<string>, b: Bucket<string>, c: Bucket<string> | ByKey(a, b) && ByKey(b, c)
      ensures ByKey(a, c)
    {
      LexTransitive(a.key, b.key, c.key);
    }
  }

  // ---------------------------------------------------------------------------
  // Posting rate and span
  // ---------------------------------------------------------------------------

  /** Months counted from year 0, so that a later month has a larger index. */
  function MonthIndex(d: Timestamp): int {
    d.year * 12 + d.month - 1
  }

  /** The calendar fields order the posts as their instants do: what holds when every date
      carries the same UTC offset. */
  ghost predicate CalendarConsistent(posts: seq<Post>) {
    forall p, q :: p in posts && q in posts && p.date.instant <= q.date.instant
      ==> MonthIndex(p.date) <= MonthIndex(q.date)
  }

  /** The inclusive number of calendar months from `first` to `last`. */
  function MonthSpan(first: Timestamp, last: Timestamp): int {
    (last.year - first.year) * 12 + (last.month - first.month) + 1
  }

  /** `posts_per_month`: `count / months.to_f` rounded to one decimal, half away from zero.
      Dates with different UTC offsets can put the later instant in the earlier month, so the span
      can be zero (an infinite rate) or negative. `calculate` calls it with at least one post. */
  function PostsPerMonth(count: nat, first: Timestamp, last: Timestamp): (r: Rate)
    requires count > 0
    ensures var span := MonthSpan(first, last);
      && (span > 0 ==> (r.Rate? && !r.negative
            && 2 * r.tenths * span <= 20 * count + span < 2 * r.tenths * span + 2 * span))
      && (span == 0 <==> r.Infinite?)
      && (span < 0 ==> (r.Rate? && r.negative
            && 2 * r.tenths * -span <= 20 * count - span < 2 * r.tenths * -span - 2 * span))
  {
    var span := MonthSpan(first, last);
    if span > 0 then Rate(false, RoundHalfUp(10 * count, span))
    else if span == 0 then Infinite
    else Rate(true, RoundHalfUp(10 * count, -span))
  }

  /** Two posts from January 2023 to January 2024 span 13 months: 0.2 posts a month. */
  lemma PostsPerMonthAcrossYear(first: Timestamp, last: Timestamp)
    requires first.year == 2023 && first.month == 1 && last.year == 2024 && last.month == 1
    ensures MonthSpan(first, last) == 13 && PostsPerMonth(2, first, last) == Rate(false, 2)
  {
  }

  /** `years_active`: the seconds from the first to the last post as years of 365.25 days, in
      tenths, rounded half up. */
  function YearsActive(first: Timestamp, last: Timestamp): (r: nat)
    requires first.instant <= last.instant
    ensures var secs := last.instant - first.instant;
      2 * r * SecondsPerTenthYear <= 2 * secs + SecondsPerTenthYear < 2 * r * SecondsPerTenthYear + 2 * SecondsPerTenthYear
  {
    RoundHalfUp(last.instant - first.instant, SecondsPerTenthYear)
  }

  /** 15 January 2020 to 15 January 2024 is 1461 days, which makes 4.0 years. */
  lemma YearsActiveFourYears(first: Timestamp, last: Timestamp)
    requires last.instant == first.instant + 1461 * 86400
    ensures YearsActive(first, last) == 40
  {
    var r := YearsActive(first, last);
    var d := 2 * r;
    assert d * SecondsPerTenthYear < 82 * SecondsPerTenthYear;
    assert 79 * SecondsPerTenthYear < d * SecondsPerTenthYear;
    MulLtCancel(d, 82, SecondsPerTenthYear);
    MulLtCancel(79, d, SecondsPerTenthYear);
  }

  // ---------------------------------------------------------------------------
  // Frequency tables
  // ---------------------------------------------------------------------------

  function Years(posts: seq<Post>): (r: seq<nat>)
    ensures |r| == |posts| && forall i :: 0 <= i < |posts| ==> r[i] == posts[i].date.year
  {
    seq(|posts|, i requires 0 <= i < |posts| => posts[i].date.year)
  }

  function MonthKeys(posts: seq<Post>): (r: seq<string>)
    ensures |r| == |posts| && forall i :: 0 <= i < |posts| ==> r[i] == MonthKey(posts[i].date)
  {
    seq(|posts|, i requires 0 <= i < |posts| => MonthKey(posts[i].date))
  }

  function WeekdayNames(posts: seq<Post>): (r: seq<string>)
    ensures |r| == |posts| && forall i :: 0 <= i < |posts| ==> r[i] == DayNames[posts[i].date.wday]
  {
    seq(|posts|, i requires 0 <= i < |posts| => DayNames[posts[i].date.wday])
  }

  /** `posts_by_year`. */
  function YearTable(posts: seq<Post>): seq<Bucket<nat>> {
    SortWith(Tally(Years(posts)), ByYearDescending)
  }

  /** `posts_by_month`: sorted by key, then reversed. */
  function MonthTable(posts: seq<Post>): seq<Bucket<string>> {
    Reverse(SortWith(Tally(MonthKeys(posts)), ByKey))
  }

  /** `days.each_with_object({}) { |day, h| h[day] = counts[day] }` from day `from` on. */
  function DayRows(counts: seq<Bucket<string>>, from: nat): (r: seq<Bucket<string>>)
    requires from <= 7
    ensures |r| == 7 - from
    ensures forall i :: 0 <= i < 7 - from ==> r[i] == Bucket(DayNames[from + i], CountOf(counts, DayNames[from + i]))
    decreases 7 - from
  {
    if from == 7 then []
    else [Bucket(DayNames[from], CountOf(counts, DayNames[from]))] + DayRows(counts, from + 1)
  }

  /** `posts_by_day_of_week`. */
  function DayTable(posts: seq<Post>): seq<Bucket<string>> {
    DayRows(Tally(WeekdayNames(posts)), 0)
  }

  /** The normalised entries of all the lists, in order. */
  function Occurrences(lists: seq<seq<string>>): seq<string> {
    if lists == [] then [] else NormalizeAll(lists[0]) + Occurrences(lists[1..])
  }

  function TagLists(posts: seq<Post>): (r: seq<seq<string>>)
    ensures |r| == |posts| && forall i :: 0 <= i < |posts| ==> r[i] == posts[i].tags
  {
    seq(|posts|, i requires 0 <= i < |posts| => posts[i].tags)
  }

  function CategoryLists(posts: seq<Post>): (r: seq<seq<string>>)
    ensures |r| == |posts| && forall i :: 0 <= i < |posts| ==> r[i] == posts[i].categories
  {
    seq(|posts|, i requires 0 <= i < |posts| => posts[i].categories)
  }

  /** `tag_counts` and `category_counts`: normalised names counted, most frequent first. */
  function NameTable(lists: seq<seq<string>>): seq<Bucket<string>> {
    SortWith(Tally(Occurrences(lists)), ByCountDescending)
  }

  // ---------------------------------------------------------------------------
  // calculate
  // ---------------------------------------------------------------------------

  /** `sorted_by_words.first`: a post with the most words. */
  function Longest(ss: seq<Scored>): (r: Scored)
    requires ss != []
    ensures r in ss && forall x :: x in ss ==> x.words <= r.words
  {
    WordsOrderIsPreorder();
    SortedEnds(ss, ByWordsDescending);
    var first := SortWith(ss, ByWordsDescending)[0];
    assert forall x :: x in ss ==> ByWordsDescending(first, x);
    first
  }

  /** `sorted_by_words.last`: a post with the fewest words. */
  function Shortest(ss: seq<Scored>): (r: Scored)
    requires ss != []
    ensures r in ss && forall x :: x in ss ==> r.words <= x.words
  {
    WordsOrderIsPreorder();
    SortedEnds(ss, ByWordsDescending);
    var sorted := SortWith(ss, ByWordsDescending);
    var last := sorted[|sorted| - 1];
    assert forall x :: x in ss ==> ByWordsDescending(x, last);
    last
  }

  /** `sorted_by_date.first`: a post with the earliest date. */
  function Earliest(posts: seq<Post>): (r: Post)
    requires posts != []
    ensures r in posts && forall p :: p in posts ==> r.date.instant <= p.date.instant
  {
    DateOrderIsPreorder();
    SortedEnds(posts, ByDate);
    var first := SortWith(posts, ByDate)[0];
    assert forall p :: p in posts ==> ByDate(first, p);
    first
  }

  /** `sorted_by_date.last`: a post with the latest date. */
  function Latest(posts: seq<Post>): (r: Post)
    requires posts != []
    ensures r in posts && forall p :: p in posts ==> p.date.instant <= r.date.instant
  {
    DateOrderIsPreorder();
    SortedEnds(posts, ByDate);
    var sorted := SortWith(posts, ByDate);
    var last := sorted[|sorted| - 1];
    assert forall p :: p in posts ==> ByDate(p, last);
    last
  }

  /** With calendar-consistent dates the month span of the posts is at least one month. */
  lemma SpanPositive(posts: seq<Post>)
    requires posts != [] && CalendarConsistent(posts)
    ensures MonthSpan(Earliest(posts).date, Latest(posts).date) >= 1
  {
    var f := Earliest(posts);
    var l := Latest(posts);
    assert f.date.instant <= l.date.instant;
    assert MonthIndex(f.date) <= MonthIndex(l.date);
  }

  /** The record `calculate` builds from a non-empty list of posts. */
  function Summarize(posts: seq<Post>, draftsCount: nat): (s: Statistics)
    requires posts != []
    ensures s.totalPosts == |posts|
    ensures s.longestPost.Some? && s.shortestPost.Some? && s.firstPost.Some? && s.lastPost.Some?
    ensures s.draftsCount == draftsCount
  {
    var scored := Score(posts);
    var total := SumWords(scored);
    var first := Earliest(posts).date;
    var last := Latest(posts).date;
    Statistics(
      |posts|,
      total,
      DivCeil(total, WordsPerMinute),
      RoundHalfUp(total, |posts|),
      Some(InfoOf(Longest(scored))),
      Some(InfoOf(Shortest(scored))),
      Some(DatedInfoOf(Earliest(posts))),
      Some(DatedInfoOf(Latest(posts))),
      YearsActive(first, last),
      PostsPerMonth(|posts|, first, last),
      YearTable(posts),
      MonthTable(posts),
      DayTable(posts),
      NameTable(TagLists(posts)),
      NameTable(CategoryLists(posts)),
      draftsCount)
  }

  /** `StatsCalculator.new(site, include_drafts:, filter_tags:).calculate`. */
  function Calculate(site: Site, includeDrafts: bool, filterTags: Option<seq<string>>): (r: Result<Statistics, Failure>)
    ensures r.Err? <==> includeDrafts && site.drafts.DraftsNil?
    ensures r.Ok? ==> r.value.totalPosts == |CollectPosts(site, includeDrafts, NormalizeFilterTags(filterTags)).value|
    ensures r.Ok? && r.value.totalPosts == 0 ==> r.value == EmptyStats()
    ensures r.Ok? && r.value.totalPosts > 0 ==> r.value.draftsCount == DraftsCount(site)
  {
    match CollectPosts(site, includeDrafts, NormalizeFilterTags(filterTags))
    case Err(e) => Err(e)
    case Ok(posts) =>
      if posts == [] then Ok(EmptyStats())
      else Ok(Summarize(posts, DraftsCount(site)))
  }

  /** Collected posts come from the site's documents, so they inherit calendar consistency. */
  lemma CollectedConsistent(site: Site, includeDrafts: bool, filter: Option<seq<string>>)
    requires CalendarConsistent(Pool(site, true))
    requires CollectPosts(site, includeDrafts, filter).Ok?
    ensures CalendarConsistent(CollectPosts(site, includeDrafts, filter).value)
  {
    var posts := CollectPosts(site, includeDrafts, filter).value;
    var pool := Pool(site, includeDrafts);
    forall p | p in posts ensures p in Pool(site, true) {
      if filter.Some? {
        assert multiset(posts)[p] > 0;
        FilterPostsByTagsCounts(pool, filter.value, p);
      }
      assert p in pool;
    }
  }
}
