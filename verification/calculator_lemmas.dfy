/**
 What the statistics record promises about the collected posts: the totals,
 the extremes, the posting rate and the four frequency tables.
 */
module CalculatorLemmas {
  import opened Outcomes
  import opened Text
  import opened Numerals
  import opened Tables
  import opened Markup
  import opened Posts
  import opened Calculator

  // ---------------------------------------------------------------------------
  // Totals
  // ---------------------------------------------------------------------------

  /** Summing the scored posts gives the sum of the posts' word counts. */
  lemma {:induction false} SumWordsIsTotal(posts: seq<Post>)
    ensures SumWords(Score(posts)) == TotalWords(posts)
    decreases |posts|
  {
    if posts != [] {
      assert Score(posts)[1..] == Score(posts[1..]);
      SumWordsIsTotal(posts[1..]);
    }
  }

  /** A sum of word counts all between `lo` and `hi` lies between `n * lo` and `n * hi`. */
  lemma {:induction false} SumWordsBounds(ss: seq<Scored>, lo: nat, hi: nat)
    requires forall x :: x in ss ==> lo <= x.words <= hi
    ensures |ss| * lo <= SumWords(ss) <= |ss| * hi
    decreases |ss|
  {
    if ss != [] {
      var n := |ss[1..]|;
      assert ss[0] in ss;
      forall x | x in ss[1..] ensures lo <= x.words <= hi {
        assert x in ss;
      }
      SumWordsBounds(ss[1..], lo, hi);
      MulSucc(n, lo);
      MulSucc(n, hi);
    }
  }

  /** `total_words` is the sum of the posts' word counts. */
  lemma SummaryTotalWords(posts: seq<Post>, drafts: nat)
    requires posts != []
    ensures Summarize(posts, drafts).totalWords == TotalWords(posts)
  {
    assert Summarize(posts, drafts).totalWords == SumWords(Score(posts));
    SumWordsIsTotal(posts);
  }

  /** `reading_minutes` is the total over 200 rounded up; `average_words` the total over the number
      of posts rounded half up. */
  lemma SummaryTotals(posts: seq<Post>, drafts: nat)
    requires posts != []
    ensures var s := Summarize(posts, drafts);
      && s.totalWords <= s.readingMinutes * WordsPerMinute < s.totalWords + WordsPerMinute
      && 2 * s.averageWords * |posts| <= 2 * s.totalWords + |posts| < 2 * s.averageWords * |posts| + 2 * |posts|
  {
    var s := Summarize(posts, drafts);
    var t := SumWords(Score(posts));
    assert s.totalWords == t;
    assert s.readingMinutes == DivCeil(t, WordsPerMinute);
    assert s.averageWords == RoundHalfUp(t, |posts|);
  }

  /** 400 words read in two minutes. */
  lemma ReadingMinutesOf400()
    ensures DivCeil(400, WordsPerMinute) == 2
  {
  }

  // ---------------------------------------------------------------------------
  // Extremes
  // ---------------------------------------------------------------------------

  lemma LongestOfPosts(posts: seq<Post>)
    requires posts != []
    ensures var l := Longest(Score(posts));
      && (exists i :: 0 <= i < |posts|
            && InfoOf(l) == PostInfo(TitleOf(posts[i]), posts[i].url, WordCount(posts[i].content)))
      && forall k :: 0 <= k < |posts| ==> WordCount(posts[k].content) <= l.words
  {
    var ss := Score(posts);
    var l := Longest(ss);
    var i :| 0 <= i < |ss| && ss[i] == l;
    assert InfoOf(l) == PostInfo(TitleOf(posts[i]), posts[i].url, WordCount(posts[i].content));
    forall k | 0 <= k < |posts| ensures WordCount(posts[k].content) <= l.words {
      assert ss[k] in ss;
    }
  }

  lemma ShortestOfPosts(posts: seq<Post>)
    requires posts != []
    ensures var h := Shortest(Score(posts));
      && (exists i :: 0 <= i < |posts|
            && InfoOf(h) == PostInfo(TitleOf(posts[i]), posts[i].url, WordCount(posts[i].content)))
      && forall k :: 0 <= k < |posts| ==> h.words <= WordCount(posts[k].content)
  {
    var ss := Score(posts);
    var h := Shortest(ss);
    var i :| 0 <= i < |ss| && ss[i] == h;
    assert InfoOf(h) == PostInfo(TitleOf(posts[i]), posts[i].url, WordCount(posts[i].content));
    forall k | 0 <= k < |posts| ensures h.words <= WordCount(posts[k].content) {
      assert ss[k] in ss;
    }
  }

  /** `longest_post` and `shortest_post` describe posts of the largest and smallest word count. */
  lemma SummaryExtremes(posts: seq<Post>, drafts: nat)
    requires posts != []
    ensures var s := Summarize(posts, drafts);
      && (exists i :: 0 <= i < |posts|
            && s.longestPost.value == PostInfo(TitleOf(posts[i]), posts[i].url, WordCount(posts[i].content)))
      && (exists i :: 0 <= i < |posts|
            && s.shortestPost.value == PostInfo(TitleOf(posts[i]), posts[i].url, WordCount(posts[i].content)))
      && (forall i :: 0 <= i < |posts| ==> s.shortestPost.value.words <= WordCount(posts[i].content) <= s.longestPost.value.words)
  {
    var s := Summarize(posts, drafts);
    assert s.longestPost.value == InfoOf(Longest(Score(posts)));
    assert s.shortestPost.value == InfoOf(Shortest(Score(posts)));
    LongestOfPosts(posts);
    ShortestOfPosts(posts);
  }

  /** A mean of values between `lo` and `hi`, rounded half up, is still between them. */
  lemma RoundedMeanBetween(total: nat, n: nat, lo: nat, hi: nat, avg: nat)
    requires n > 0 && n * lo <= total <= n * hi
    requires 2 * avg * n <= 2 * total + n < 2 * avg * n + 2 * n
    ensures lo <= avg <= hi
  {
    var p := avg * n;
    assert 2 * avg * n == 2 * p;
    assert n * lo == lo * n && n * hi == hi * n;
    if avg > hi {
      MulMono(hi + 1, avg, n);
      MulSucc(hi, n);
      assert false;
    }
    if avg < lo {
      MulMono(avg + 1, lo, n);
      MulSucc(avg, n);
      assert false;
    }
  }

  /** The average lies between the shortest and the longest post. */
  lemma SummaryAverageBetween(posts: seq<Post>, drafts: nat)
    requires posts != []
    ensures var s := Summarize(posts, drafts);
      s.shortestPost.value.words <= s.averageWords <= s.longestPost.value.words
  {
    var s := Summarize(posts, drafts);
    var ss := Score(posts);
    var lo := Shortest(ss).words;
    var hi := Longest(ss).words;
    var total := SumWords(ss);
    assert s.longestPost == Some(InfoOf(Longest(ss))) && s.shortestPost == Some(InfoOf(Shortest(ss)));
    assert s.averageWords == RoundHalfUp(total, |posts|);
    SumWordsBounds(ss, lo, hi);
    RoundedMeanBetween(total, |posts|, lo, hi, s.averageWords);
  }

  lemma EarliestOfPosts(posts: seq<Post>)
    requires posts != []
    ensures exists i :: 0 <= i < |posts| && Earliest(posts) == posts[i] && (forall j :: 0 <= j < |posts| ==> posts[i].date.instant <= posts[j].date.instant)
  {
    var i :| 0 <= i < |posts| && posts[i] == Earliest(posts);
    assert forall j :: 0 <= j < |posts| ==> posts[j] in posts;
  }

  lemma LatestOfPosts(posts: seq<Post>)
    requires posts != []
    ensures exists i :: 0 <= i < |posts| && Latest(posts) == posts[i] && (forall j :: 0 <= j < |posts| ==> posts[j].date.instant <= posts[i].date.instant)
  {
    var i :| 0 <= i < |posts| && posts[i] == Latest(posts);
    assert forall j :: 0 <= j < |posts| ==> posts[j] in posts;
  }

  /** `first_post` and `last_post` describe posts with the earliest and the latest date. */
  lemma SummaryDates(posts: seq<Post>, drafts: nat)
    requires posts != []
    ensures var s := Summarize(posts, drafts);
      && (exists i :: 0 <= i < |posts| && s.firstPost.value == DatedInfoOf(posts[i])
            && forall j :: 0 <= j < |posts| ==> posts[i].date.instant <= posts[j].date.instant)
      && (exists i :: 0 <= i < |posts| && s.lastPost.value == DatedInfoOf(posts[i])
            && forall j :: 0 <= j < |posts| ==> posts[j].date.instant <= posts[i].date.instant)
  {
    var s := Summarize(posts, drafts);
    assert s.firstPost.value == DatedInfoOf(Earliest(posts));
    assert s.lastPost.value == DatedInfoOf(Latest(posts));
    EarliestOfPosts(posts);
    LatestOfPosts(posts);
  }

  /** A missing title is shown as "(untitled)". */
  lemma UntitledPost(p: Post)
    requires p.title.None?
    ensures DatedInfoOf(p).title == "(untitled)"
    ensures InfoOf(Scored(p, WordCount(p.content))).title == "(untitled)"
  {
  }

  // ---------------------------------------------------------------------------
  // Posting rate and activity span
  // ---------------------------------------------------------------------------

  /** `posts_per_month`: the number of posts over the inclusive month span of the earliest and the
      latest post, an infinity for a zero span, and a span of at least one month when the dates
      are calendar-consistent; and `years_active`, the time span rounded to tenths of a year. */
  lemma SummaryRate(posts: seq<Post>, drafts: nat)
    requires posts != []
    ensures var s := Summarize(posts, drafts);
      var first := Earliest(posts).date;
      var last := Latest(posts).date;
      var span := MonthSpan(first, last);
      var rate := s.postsPerMonth;
      && (CalendarConsistent(posts) ==> span >= 1)
      && (span > 0 ==> (rate.Rate? && !rate.negative
            && 2 * rate.tenths * span <= 20 * |posts| + span < 2 * rate.tenths * span + 2 * span))
      && (span == 0 <==> rate.Infinite?)
      && (span < 0 ==> (rate.Rate? && rate.negative
            && 2 * rate.tenths * -span <= 20 * |posts| - span < 2 * rate.tenths * -span - 2 * span))
      && first.instant <= last.instant
      && 2 * s.yearsActive * SecondsPerTenthYear <= 2 * (last.instant - first.instant) + SecondsPerTenthYear
           < 2 * s.yearsActive * SecondsPerTenthYear + 2 * SecondsPerTenthYear
  {
    var s := Summarize(posts, drafts);
    var first := Earliest(posts).date;
    var last := Latest(posts).date;
    if CalendarConsistent(posts) {
      SpanPositive(posts);
    }
    assert s.postsPerMonth == PostsPerMonth(|posts|, first, last);
    assert s.yearsActive == YearsActive(first, last);
  }

  /** Dates with different UTC offsets: 2023-02-01 00:30 +01:00 is an earlier instant than
      2023-01-31 23:45 +00:00 but falls in the later month, so the span is zero and the rate is
      `Infinity`. */
  lemma MixedOffsetsInfiniteRate(p: Post, q: Post, drafts: nat)
    requires p.date.year == 2023 && p.date.month == 2 && q.date.year == 2023 && q.date.month == 1
    requires p.date.instant < q.date.instant
    ensures Summarize([p, q], drafts).postsPerMonth.Infinite?
  {
    var posts := [p, q];
    assert Earliest(posts) == p;
    assert Latest(posts) == q;
    SummaryRate(posts, drafts);
  }

  /** The span depends only on the month of the earliest and of the latest post, whichever of
      several posts sharing the extreme instant is chosen. */
  lemma SpanWellDefined(posts: seq<Post>, f: Post, l: Post)
    requires posts != [] && CalendarConsistent(posts)
    requires f in posts && l in posts
    requires f.date.instant == Earliest(posts).date.instant && l.date.instant == Latest(posts).date.instant
    ensures MonthSpan(f.date, l.date) == MonthSpan(Earliest(posts).date, Latest(posts).date)
  {
    var e := Earliest(posts);
    var t := Latest(posts);
    assert MonthIndex(f.date) == MonthIndex(e.date);
    assert MonthIndex(l.date) == MonthIndex(t.date);
  }

  // ---------------------------------------------------------------------------
  // posts_by_year and posts_by_month
  // ---------------------------------------------------------------------------

  /** `posts_by_year` counts the posts of every year, years strictly descending. */
  lemma YearTableFacts(posts: seq<Post>)
    ensures var r := YearTable(posts);
      && Tallies(r, Years(posts))
      && SumCounts(r) == |posts|
      && forall i, j :: 0 <= i < j < |r| ==> r[i].key > r[j].key
  {
    YearOrderIsPreorder();
    RankedTally(Years(posts), ByYearDescending);
  }

  /** A sequence sorted by key with distinct keys, reversed, has its keys strictly descending. */
  lemma ReversedKeysDescend(sorted: seq<Bucket<string>>)
    requires Sorted(sorted, ByKey) && NoDupKeys(sorted)
    ensures var r := Reverse(sorted);
      forall i, j :: 0 <= i < j < |r| ==> LexLe(r[j].key, r[i].key) && r[i].key != r[j].key
  {
    var r := Reverse(sorted);
    var n := |sorted|;
    forall i, j | 0 <= i < j < |r| ensures LexLe(r[j].key, r[i].key) && r[i].key != r[j].key {
      assert r[i] == sorted[n - 1 - i] && r[j] == sorted[n - 1 - j];
      assert ByKey(sorted[n - 1 - j], sorted[n - 1 - i]);
    }
  }

  /** Sorting a frequency table by key and reversing it orders the keys strictly downward. */
  lemma DescendingKeys(ks: seq<string>)
    ensures var r := Reverse(SortWith(Tally(ks), ByKey));
      && Tallies(r, ks)
      && forall i, j :: 0 <= i < j < |r| ==> LexLe(r[j].key, r[i].key) && r[i].key != r[j].key
  {
    KeyOrderIsPreorder();
    var sorted := SortWith(Tally(ks), ByKey);
    RankedTally(ks, ByKey);
    TalliesReverse(sorted, ks);
    ReversedKeysDescend(sorted);
  }

  /** `posts_by_month` counts the posts of every "YYYY-MM", keys strictly descending as strings. */
  lemma MonthTableFacts(posts: seq<Post>)
    ensures var r := MonthTable(posts);
      && Tallies(r, MonthKeys(posts))
      && SumCounts(r) == |posts|
      && forall i, j :: 0 <= i < j < |r| ==> LexLe(r[j].key, r[i].key) && r[i].key != r[j].key
  {
    DescendingKeys(MonthKeys(posts));
  }

  // ---------------------------------------------------------------------------
  // posts_by_day_of_week
  // ---------------------------------------------------------------------------

  /** The number of posts published on weekday `w`. */
  function PostsOn(posts: seq<Post>, w: Weekday): nat {
    if posts == [] then 0 else (if posts[0].date.wday == w then 1 else 0) + PostsOn(posts[1..], w)
  }

  lemma {:induction false} WeekdayNameCount(posts: seq<Post>, w: Weekday)
    ensures multiset(WeekdayNames(posts))[DayNames[w]] == PostsOn(posts, w)
    decreases |posts|
  {
    if posts != [] {
      var names := WeekdayNames(posts);
      assert names == [names[0]] + WeekdayNames(posts[1..]);
      WeekdayNameCount(posts[1..], w);
      DayNamesDistinct();
      assert names[0] == DayNames[w] <==> posts[0].date.wday == w;
    }
  }

  lemma {:induction false} DayRowsSum(counts: seq<Bucket<string>>, names: seq<string>, from: nat)
    requires from <= 7
    requires forall k :: CountOf(counts, k) == multiset(names)[k]
    ensures SumCounts(DayRows(counts, from)) == SumOver(DayNames[from..], multiset(names))
    decreases 7 - from
  {
    if from < 7 {
      DayRowsSum(counts, names, from + 1);
      assert DayNames[from..][1..] == DayNames[from + 1..];
      assert DayRows(counts, from)[1..] == DayRows(counts, from + 1);
    } else {
      assert DayNames[from..] == [];
    }
  }

  lemma CountsOfNames(names: seq<string>)
    ensures forall k :: CountOf(Tally(names), k) == multiset(names)[k]
  {
    forall k ensures CountOf(Tally(names), k) == multiset(names)[k] {
      CountOfTally(names, k);
    }
  }

  /** `posts_by_day_of_week` has the seven day names in order, each with its number of posts. */
  lemma DayTableRows(posts: seq<Post>)
    ensures var r := DayTable(posts);
      && |r| == 7
      && forall w: Weekday :: r[w] == Bucket(DayNames[w], PostsOn(posts, w))
  {
    var names := WeekdayNames(posts);
    var r := DayTable(posts);
    CountsOfNames(names);
    forall w: Weekday ensures r[w] == Bucket(DayNames[w], PostsOn(posts, w)) {
      WeekdayNameCount(posts, w);
    }
  }

  lemma DayRowsSumAll(counts: seq<Bucket<string>>, names: seq<string>)
    requires forall k :: CountOf(counts, k) == multiset(names)[k]
    ensures SumCounts(DayRows(counts, 0)) == SumOver(DayNames, multiset(names))
  {
    DayRowsSum(counts, names, 0);
    assert DayNames[0..] == DayNames;
  }

  lemma WeekdayNamesKnown(posts: seq<Post>)
    ensures forall k :: k in WeekdayNames(posts) ==> k in DayNames
  {
    var names := WeekdayNames(posts);
    forall k | k in names ensures k in DayNames {
      var i :| 0 <= i < |names| && names[i] == k;
      assert DayNames[posts[i].date.wday] == k;
    }
  }

  lemma DayNamesCover(posts: seq<Post>)
    ensures SumOver(DayNames, multiset(WeekdayNames(posts))) == |posts|
  {
    DayNamesDistinct();
    WeekdayNamesKnown(posts);
    SumOverCovers(DayNames, WeekdayNames(posts));
  }

  /** The counts of `posts_by_day_of_week` add up to the number of posts. */
  lemma DayTableSum(posts: seq<Post>)
    ensures SumCounts(DayTable(posts)) == |posts|
  {
    var names := WeekdayNames(posts);
    CountsOfNames(names);
    DayRowsSumAll(Tally(names), names);
    DayNamesCover(posts);
  }

  // ---------------------------------------------------------------------------
  // tags and categories
  // ---------------------------------------------------------------------------

  /** The number of entries in all the lists. */
  function TotalLength(lists: seq<seq<string>>): nat {
    if lists == [] then 0 else |lists[0]| + TotalLength(lists[1..])
  }

  lemma {:induction false} OccurrencesLength(lists: seq<seq<string>>)
    ensures |Occurrences(lists)| == TotalLength(lists)
    decreases |lists|
  {
    if lists != [] {
      OccurrencesLength(lists[1..]);
    }
  }

  /** Every normalised entry of every list is an occurrence. */
  lemma {:induction false} OccurrencesHas(lists: seq<seq<string>>, i: nat, j: nat)
    requires i < |lists| && j < |lists[i]|
    ensures NormalizeTag(lists[i][j]) in Occurrences(lists)
    decreases |lists|
  {
    if i > 0 {
      OccurrencesHas(lists[1..], i - 1, j);
    } else {
      assert NormalizeAll(lists[0])[j] == NormalizeTag(lists[0][j]);
    }
  }

  /** `tags` and `categories`: distinct normalised names, each with its number of occurrences, most
      frequent first, the counts adding up to the number of entries. */
  lemma NameTableFacts(lists: seq<seq<string>>)
    ensures var r := NameTable(lists);
      && Tallies(r, Occurrences(lists))
      && SumCounts(r) == TotalLength(lists)
      && (forall i, j :: 0 <= i < j < |r| ==> r[i].count >= r[j].count)
      && (forall i, j :: 0 <= i < |lists| && 0 <= j < |lists[i]| ==>
            exists b :: b in r && b.key == NormalizeTag(lists[i][j]))
  {
    CountOrderIsPreorder();
    RankedTally(Occurrences(lists), ByCountDescending);
    OccurrencesLength(lists);
    var r := NameTable(lists);
    var ks := Occurrences(lists);
    forall i, j | 0 <= i < |lists| && 0 <= j < |lists[i]|
      ensures exists b :: b in r && b.key == NormalizeTag(lists[i][j])
    {
      OccurrencesHas(lists, i, j);
      var k := NormalizeTag(lists[i][j]);
      assert Bucket(k, multiset(ks)[k]) in r;
    }
  }

  /** A key seen twice makes one row with count 2. */
  lemma TallyTwice<K>(k: K)
    ensures Tally([k, k]) == [Bucket(k, 2)]
  {
    var ks := [k, k];
    assert ks[..1] == [k] && ks[..1][..0] == [];
  }

  lemma OccurrencesOfTwo(a: seq<string>, b: seq<string>)
    ensures Occurrences([a, b]) == NormalizeAll(a) + NormalizeAll(b)
  {
    assert [a, b][1..] == [b] && [b][1..] == [];
    assert Occurrences([b]) == NormalizeAll(b) + [];
    assert NormalizeAll(b) + [] == NormalizeAll(b);
  }

  lemma NormalizeAllSingle(t: string)
    ensures NormalizeAll([t]) == [NormalizeTag(t)]
  {
  }

  lemma PairOfSingles<T>(x: seq<T>, y: seq<T>, a: T, b: T)
    requires x == [a] && y == [b]
    ensures x + y == [a, b]
  {
  }

  lemma NormalizeTwoSingles(a: string, b: string)
    ensures NormalizeAll([a]) + NormalizeAll([b]) == [NormalizeTag(a), NormalizeTag(b)]
  {
    NormalizeAllSingle(a);
    NormalizeAllSingle(b);
    PairOfSingles(NormalizeAll([a]), NormalizeAll([b]), NormalizeTag(a), NormalizeTag(b));
  }

  lemma MergedOccurrences(w: string, p: Post, q: Post)
    requires IsCleanTag(w) && p.tags == [w + ","] && q.tags == [w]
    ensures Occurrences(TagLists([p, q])) == [w, w]
  {
    assert TagLists([p, q]) == [p.tags, q.tags];
    OccurrencesOfTwo(p.tags, q.tags);
    NormalizeTwoSingles(w + ",", w);
    NormalizeTagMerges(w);
  }

  /** A tag written with and without a trailing comma is counted as one tag. */
  lemma TagsMerge(w: string, p: Post, q: Post)
    requires IsCleanTag(w) && p.tags == [w + ","] && q.tags == [w]
    ensures NameTable(TagLists([p, q])) == [Bucket(w, 2)]
  {
    MergedOccurrences(w, p, q);
    TallyTwice(w);
    var b := Bucket(w, 2);
    assert SortWith([b], ByCountDescending) == Insert(b, SortWith([], ByCountDescending), ByCountDescending);
  }
}
