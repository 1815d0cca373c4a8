# jekyll-stats in Dafny

A model of the two pure components of the `jekyll-stats` Jekyll plugin, with proofs about it.

- `StatsCalculator` takes a site's posts (and optionally its drafts), optionally keeps only the posts that share a normalised tag with a filter, and builds one statistics record:
  - word totals, reading time and average length;
  - the longest and shortest post, and the first and last post;
  - how long the blog has been active, and its posting rate;
  - posts per year, per `YYYY-MM` month and per weekday;
  - tag and category frequency tables;
  - the number of drafts.
- `Formatter#to_terminal` turns that record into the plain-text report:
  - a banner, then the summary, averages, date-range and frequency lines;
  - a bar chart of posts per year;
  - the top tags, the categories and the drafts line, each only when there is something to show;
  - a closing rule.

The modules follow the program's structure:

| file | module | contents |
|---|---|---|
| `outcomes.dfy` | `Outcomes` | `Option` and `Result` |
| `text.dfy` | `Text` | Ruby's `strip`, whitespace and word-character classes, `reverse`, `join`, splitting on a character, byte-wise string order |
| `numerals.dfy` | `Numerals` | `Integer#to_s`, zero padding, exact ceiling and half-up rounding, one-decimal numbers kept as tenths |
| `tables.dfy` | `Tables` | frequency tables (`Hash.new(0)` counting), a sort by a total preorder, and their sums |
| `markup.dfy` | `Markup` | the five substitutions of `word_count` and its whitespace split |
| `posts.dfy` | `Posts` | the post and site records, `normalize_tag`, the tag filter, `collect_posts`, `drafts_count` |
| `calculator.dfy` | `Calculator` | `calculate`, the statistics record, `empty_stats` and the grouping tables |
| `calculator_lemmas.dfy` | `CalculatorLemmas` | what the statistics record says about the collected posts |
| `formatter.dfy` | `Formatter` | every line of the report, the order of its parts, and `to_terminal` |
| `report_lemmas.dfy` | `ReportLemmas` | what the finished report contains, and the pipeline from site to report |

How the model represents the source:

- A post's `date` is a `Timestamp`. It holds the calendar fields `strftime` and `wday` read, plus the instant in seconds that `Time#<=>` and `Time#-` compare.
- `CalendarConsistent` states that a later instant never falls in an earlier calendar month. It holds when every date carries the same UTC offset. `calculate` does not assume it: with mixed offsets the month span can be 0, and Ruby's `count / 0.0` gives an infinite `posts_per_month`, which the model represents as well.
- The record has two one-decimal floats. `years_active` is a natural number of tenths. `posts_per_month` is a `Rate`: a sign with a number of tenths, or `Infinite` for a zero month span. The model rounds both exactly, with halves rounded away from zero.
- A report that would dereference a `nil` entry, or divide by a zero maximum in the chart, is an `Err`. Ruby would raise `NoMethodError` or `FloatDomainError` there.

## Model

| member | source | states |
|---|---|---|
| Posts.NormalizeTag | lib/jekyll-stats/stats_calculator.rb:136-138 | the normal form has no blank at either end and is a substring of the raw tag |
| Posts.NormalizeCleanTag | lib/jekyll-stats/stats_calculator.rb:136-138 | a tag with no blank at either end and no trailing `,;:` is its own normal form |
| Posts.NormalizeTagTrailingPunct | lib/jekyll-stats/stats_calculator.rb:137 | any run of `,;:` after a clean tag is removed |
| Posts.NormalizeTagMerges | test/stats_calculator_test.rb:83-93 | "w," and "w" normalise to the same tag `w`, for every clean tag `w` |
| Posts.NormalizeTagNotIdempotent | lib/jekyll-stats/stats_calculator.rb:137 | only one trailing run is removed: "w, ," normalises to "w,", which normalises in turn to "w" |
| Posts.NormalizeFilterTags | lib/jekyll-stats/stats_calculator.rb:61-65 | no filter exactly when none was given or the list is empty; otherwise every filter tag is normalised, in order (the same pointwise map, Posts.NormalizeAll, normalises each post's tags) |
| Posts.KeepIfCounts | lib/jekyll-stats/stats_calculator.rb:55 | `select` keeps each element that passes as many times as it occurs and drops every other |
| Posts.KeepIfAppend | lib/jekyll-stats/stats_calculator.rb:55 | `select` distributes over concatenation, so the kept elements keep their order |
| Posts.FilterPostsByTagsCounts | lib/jekyll-stats/stats_calculator.rb:54-59 | a post is kept, as often as it occurs, exactly when one of its normalised tags is a filter tag |
| Posts.FilterPostsByTags | lib/jekyll-stats/stats_calculator.rb:54-59 | never more posts than given; FilterPostsByTagsCounts states which posts are kept |
| Posts.FilterDropsUntagged | lib/jekyll-stats/stats_calculator.rb:56-57 | a post without tags never passes a filter |
| Posts.FilterPostsByTagsAppend | lib/jekyll-stats/stats_calculator.rb:54-59 | filtering the posts followed by the drafts is filtering each and concatenating |
| Posts.CollectPosts | lib/jekyll-stats/stats_calculator.rb:47-52 | fails exactly when drafts are asked for and `site.drafts` is nil; otherwise the posts, then the drafts when asked for and present, filtered when a filter is set |
| Posts.CollectPostsDrafts | lib/jekyll-stats/stats_calculator.rb:49 | with no filter, a draft is collected exactly when drafts are asked for |
| Posts.DraftsCount | lib/jekyll-stats/stats_calculator.rb:150-154 | the size of the draft list, and 0 when the site has no list, whether or not drafts are collected |
| Markup.ReplaceDelimited | lib/jekyll-stats/stats_calculator.rb:69-71 | the result is no longer than the input, and every character is a space or comes from the input |
| Markup.ReplaceDelimitedKeeps | lib/jekyll-stats/stats_calculator.rb:69-71 | text before the first opening character is copied unchanged |
| Markup.ReplaceDelimitedMatches | lib/jekyll-stats/stats_calculator.rb:69-71 | an opener, a body without the closer, and the closer become one space |
| Markup.ReplaceDelimitedUnclosed | lib/jekyll-stats/stats_calculator.rb:69-71 | an opener with no closer anywhere after it is copied |
| Markup.ReplaceDelimitedLeavesNone | lib/jekyll-stats/stats_calculator.rb:69-71 | after the substitution, no opener is followed anywhere by a closer |
| Markup.ReplaceDelimitedNoMatch | lib/jekyll-stats/stats_calculator.rb:69-71 | where the pattern matches nowhere, the substitution changes nothing |
| Markup.ReplaceDelimitedIdempotent | lib/jekyll-stats/stats_calculator.rb:69-71 | applying the substitution twice is the same as applying it once |
| Markup.FindFence | lib/jekyll-stats/stats_calculator.rb:70 | the position of the first three-backtick fence from a point on, or the end when there is none |
| Markup.FenceOpensMeans | lib/jekyll-stats/stats_calculator.rb:70 | a block match starts at a fence exactly when some fence begins at least three characters later |
| Markup.ReplaceFencesKeeps | lib/jekyll-stats/stats_calculator.rb:70 | text in which no block match starts is copied unchanged, including stray backticks and a fence that no later fence closes |
| Markup.ReplaceFencesMatches | lib/jekyll-stats/stats_calculator.rb:70 | a block whose body starts no fence becomes one space: the lazy match ends at the first later fence, and single backticks in the body do not end it |
| Markup.ReplaceFencesNoMatch | lib/jekyll-stats/stats_calculator.rb:70 | where no block match starts anywhere, the substitution changes nothing |
| Markup.ReplaceFencesUnclosed | lib/jekyll-stats/stats_calculator.rb:70 | a fence followed by text without a fence is kept, with that text |
| Markup.ReplaceFencesInlineInside | lib/jekyll-stats/stats_calculator.rb:70 | a fenced block whose body holds inline code (```` ```\nputs `ls`\n``` ````) becomes one space |
| Markup.ReplaceLinksKeeps | lib/jekyll-stats/stats_calculator.rb:72 | text in which no link match starts is copied unchanged, including a `[` that opens no link |
| Markup.ReplaceLinksNoMatch | lib/jekyll-stats/stats_calculator.rb:72 | where no link match starts anywhere, the substitution changes nothing |
| Markup.ReplaceLinksBareBrackets | lib/jekyll-stats/stats_calculator.rb:72 | brackets that open no link, as in "[ ] todo" and "a[1]", are kept |
| Markup.ReplaceLinksMatches | lib/jekyll-stats/stats_calculator.rb:72 | `[label](target)` becomes `label` |
| Markup.ReplaceLinksNested | lib/jekyll-stats/stats_calculator.rb:72 | a label that opens with `[` leaves that bracket in place, before the next link's text |
| Markup.ReplaceLinksNotIdempotent | lib/jekyll-stats/stats_calculator.rb:72 | a single `gsub` pass can leave a link that a second pass would replace |
| Markup.DeleteMarks | lib/jekyll-stats/stats_calculator.rb:73 | the result holds none of `#*_~` and backtick, and only characters of the input |
| Markup.DeleteMarksAppend | lib/jekyll-stats/stats_calculator.rb:73 | deleting marks distributes over concatenation |
| Markup.DeleteMarksKeeps | lib/jekyll-stats/stats_calculator.rb:73 | text without marks is unchanged |
| Markup.RunLength | lib/jekyll-stats/stats_calculator.rb:74 | the length of the leading run of non-whitespace |
| Markup.Tokens | lib/jekyll-stats/stats_calculator.rb:74 | `split(/\s+/)` yields non-empty pieces without whitespace |
| Markup.TokensOfJoin | lib/jekyll-stats/stats_calculator.rb:74 | splitting whitespace-free words joined by single spaces gives back the words |
| Markup.TokensCoverText | lib/jekyll-stats/stats_calculator.rb:74 | the pieces, concatenated, are exactly the non-whitespace characters of the text |
| Markup.HasWordChar | lib/jekyll-stats/stats_calculator.rb:74 | `match?(/\w/)` holds exactly when some character is an ASCII letter, digit or underscore |
| Markup.CountWordTokens | lib/jekyll-stats/stats_calculator.rb:74 | at most one per piece; every piece exactly when all hold a word character, and none exactly when none does |
| Markup.CountWordTokensSingle | lib/jekyll-stats/stats_calculator.rb:74 | a single piece counts 1 exactly when it holds a word character, else 0 |
| Markup.CountWordTokensAppend | lib/jekyll-stats/stats_calculator.rb:74 | the count of a concatenation is the sum of the counts, so with the single-piece case every list counts its pieces that hold a word character |
| Markup.StripMarkup | lib/jekyll-stats/stats_calculator.rb:68-73 | the five substitutions in the source's order, never lengthening the text; StripMarkupPlain shows plain text passes unchanged |
| Markup.WordCount | lib/jekyll-stats/stats_calculator.rb:67-75 | never more words than characters; the step lemmas above fix each substitution's output on every input, and PlainTokensCount, WordCountStrayBacktick and the examples below give its value |
| Markup.ReplaceFences | lib/jekyll-stats/stats_calculator.rb:70 | never lengthens the text. Every input splits at its first block match: ReplaceFencesKeeps copies the text before it, and ReplaceFencesMatches replaces the block |
| Markup.ReplaceLinks | lib/jekyll-stats/stats_calculator.rb:72 | never lengthens the text. Every input splits at its first link match: ReplaceLinksKeeps copies the text before it, and ReplaceLinksMatches replaces the link by its label |
| Markup.StripMarkupPlain | lib/jekyll-stats/stats_calculator.rb:68-73 | text without `<`, `[` or marks passes the five substitutions unchanged |
| Markup.PlainWordsCount | test/stats_calculator_test.rb:27-35 | plain words joined by single spaces count one each: "Hello world this is a test post." counts 7 |
| Markup.PlainTokensCount | lib/jekyll-stats/stats_calculator.rb:67-75 | plain pieces joined by single spaces count exactly the pieces that hold a word character |
| Markup.WordCountSkipsPunctuation | lib/jekyll-stats/stats_calculator.rb:74 | a punctuation-only piece is not a word: "w1 ! w2" counts 2 |
| Markup.StrayTicksStrip | lib/jekyll-stats/stats_calculator.rb:68-73 | on `` x ` y `z` w `` the inline code becomes a space, no block forms, and the unpartnered backtick is deleted |
| Markup.WordCountStrayBacktick | lib/jekyll-stats/stats_calculator.rb:67-75 | `` x ` y `z` w `` counts 3 for any words x, z and w holding a word character |
| Markup.WordCountRepeated | test/stats_calculator_test.rb:58-61 | n copies of "word" joined by spaces count n |
| Markup.ReplaceTagWithSpace | lib/jekyll-stats/stats_calculator.rb:69 | an HTML tag becomes one space |
| Markup.WordCountTagIsSpace | test/stats_calculator_test.rb:130-137 | an HTML tag counts as whitespace: `<p>Hello</p> <div>world</div>` counts as "Hello world" does |
| Markup.WordCountLinkIsLabel | test/stats_calculator_test.rb:139-146 | a Markdown link counts as its label only |
| Markup.KeepsWithoutOpeners | lib/jekyll-stats/stats_calculator.rb:69-71 | text without `<` or backtick passes the first three substitutions unchanged |
| Calculator.EmptyStats | lib/jekyll-stats/stats_calculator.rb:156-176 | all counts 0; no longest, shortest, first or last post; empty year, month, tag and category tables; the seven weekdays at 0; drafts 0 |
| Calculator.Longest | lib/jekyll-stats/stats_calculator.rb:20-32 | a collected post with no fewer words than any other, among the posts paired with their word counts (Calculator.Score) |
| Calculator.Shortest | lib/jekyll-stats/stats_calculator.rb:20-33 | a collected post with no more words than any other |
| Calculator.Earliest | lib/jekyll-stats/stats_calculator.rb:21-34 | a collected post dated no later than any other |
| Calculator.Latest | lib/jekyll-stats/stats_calculator.rb:21-35 | a collected post dated no earlier than any other |
| Calculator.WordsOrderIsPreorder | lib/jekyll-stats/stats_calculator.rb:20 | the key `-count` orders the posts totally |
| Calculator.DateOrderIsPreorder | lib/jekyll-stats/stats_calculator.rb:21 | the post dates order the posts totally |
| Calculator.YearOrderIsPreorder | lib/jekyll-stats/stats_calculator.rb:107 | the key `-year` orders the year rows totally |
| Calculator.KeyOrderIsPreorder | lib/jekyll-stats/stats_calculator.rb:114 | string comparison orders the month rows totally |
| Calculator.CountOrderIsPreorder | lib/jekyll-stats/stats_calculator.rb:132-146 | the key `-count` orders the tag and category rows totally |
| Calculator.PostsPerMonth | lib/jekyll-stats/stats_calculator.rb:99-102 | for a positive month span, the posts per month rounded half-up to tenths; infinite exactly when the span is 0; for a negative span, a negative rate of the same magnitude |
| Calculator.PostsPerMonthAcrossYear | test/stats_calculator_test.rb:158-167 | January 2023 to January 2024 is 13 months, and 2 posts over it make 0.2 a month |
| Calculator.SpanPositive | lib/jekyll-stats/stats_calculator.rb:100 | when a later instant never falls in an earlier month, the span from the earliest to the latest post is at least 1 |
| Calculator.YearsActive | lib/jekyll-stats/stats_calculator.rb:93-97 | the seconds between the dates, in tenths of 365.25-day years, rounded half-up |
| Calculator.YearsActiveFourYears | test/stats_calculator_test.rb:148-156 | 1461 days between the first and the last post make 4.0 years |
| Calculator.DayRows | lib/jekyll-stats/stats_calculator.rb:123 | from a given day on, one row per day name, in week order, holding that day's count in the tally of each post's weekday name (Calculator.WeekdayNames) |
| Calculator.Summarize | lib/jekyll-stats/stats_calculator.rb:19-44 | for any non-empty list of posts, the number of posts, all four entries present, and the draft count passed in |
| Calculator.Calculate | lib/jekyll-stats/stats_calculator.rb:15-17 | for any dates, fails exactly when collecting fails; counts the collected posts; is the empty record when there are none; reports the site's draft count otherwise |
| Calculator.CollectedConsistent | lib/jekyll-stats/stats_calculator.rb:47-52 | collected posts come from the site's documents, so when those dates are calendar-consistent the collected ones are too, and Calculator.SpanPositive applies to them |
| CalculatorLemmas.SumWordsIsTotal | lib/jekyll-stats/stats_calculator.rb:19-23 | the sum over the scored posts is the sum of the per-post word counts |
| CalculatorLemmas.SumWordsBounds | lib/jekyll-stats/stats_calculator.rb:23 | n posts between lo and hi words sum to between n·lo and n·hi |
| CalculatorLemmas.SummaryTotalWords | lib/jekyll-stats/stats_calculator.rb:23-29 | `total_words` is the sum of the per-post word counts |
| CalculatorLemmas.SummaryTotals | lib/jekyll-stats/stats_calculator.rb:30-31 | `reading_minutes` is the total divided by 200, rounded up; `average_words` is the total divided by the number of posts, rounded half-up |
| CalculatorLemmas.ReadingMinutesOf400 | test/stats_calculator_test.rb:58-67 | 400 words take 2 minutes |
| CalculatorLemmas.LongestOfPosts | lib/jekyll-stats/stats_calculator.rb:19-32 | the longest entry is the title, URL and word count of a collected post, and no post has more words |
| CalculatorLemmas.ShortestOfPosts | lib/jekyll-stats/stats_calculator.rb:19-33 | the shortest entry is the title, URL and word count of a collected post, and no post has fewer words |
| CalculatorLemmas.SummaryExtremes | test/stats_calculator_test.rb:47-56 | the longest and shortest entries describe collected posts, and every post's word count lies between them |
| CalculatorLemmas.RoundedMeanBetween | lib/jekyll-stats/stats_calculator.rb:31 | a rounded mean of values between lo and hi is between lo and hi |
| CalculatorLemmas.SummaryAverageBetween | lib/jekyll-stats/stats_calculator.rb:31-33 | the average lies between the shortest and the longest post's word counts |
| CalculatorLemmas.EarliestOfPosts | lib/jekyll-stats/stats_calculator.rb:21-34 | the earliest post is one of the collected posts, dated no later than any |
| CalculatorLemmas.LatestOfPosts | lib/jekyll-stats/stats_calculator.rb:21-35 | the latest post is one of the collected posts, dated no earlier than any |
| CalculatorLemmas.SummaryDates | lib/jekyll-stats/stats_calculator.rb:85-91 | `first_post` and `last_post` are the title, URL and `%Y-%m-%d` date of the earliest and the latest collected post |
| CalculatorLemmas.UntitledPost | lib/jekyll-stats/stats_calculator.rb:79-87 | a post without a title is reported as "(untitled)" |
| Calculator.TitleOf | lib/jekyll-stats/stats_calculator.rb:79 | the title, or "(untitled)" when there is none; UntitledPost states the default |
| CalculatorLemmas.SummaryRate | lib/jekyll-stats/stats_calculator.rb:93-102 | `posts_per_month` is the count over the span rounded to tenths for a positive span, infinite exactly for a zero span, negative for a negative one, and the span is at least 1 for calendar-consistent dates; `years_active` is the time span rounded half-up to tenths of a year, bounded on both sides |
| CalculatorLemmas.MixedOffsetsInfiniteRate | lib/jekyll-stats/stats_calculator.rb:99-102 | a February post at an earlier instant than a January post of the same year (different UTC offsets) makes a zero span and an infinite rate |
| CalculatorLemmas.SpanWellDefined | lib/jekyll-stats/stats_calculator.rb:99-102 | posts tied for earliest or latest give the same month span, so an unstable sort cannot change it |
| CalculatorLemmas.YearTableFacts | lib/jekyll-stats/stats_calculator.rb:104-109 | one row per distinct year with its number of posts, the counts summing to the number of posts, years strictly descending |
| Calculator.YearTable | lib/jekyll-stats/stats_calculator.rb:104-109 | `posts_by_year` over each post's year (Calculator.Years); YearTableFacts states its rows |
| CalculatorLemmas.ReversedKeysDescend | lib/jekyll-stats/stats_calculator.rb:114-115 | reversing rows sorted by distinct keys leaves the keys strictly descending |
| CalculatorLemmas.DescendingKeys | lib/jekyll-stats/stats_calculator.rb:112-116 | the month table is a frequency table with strictly descending keys |
| CalculatorLemmas.MonthTableFacts | lib/jekyll-stats/stats_calculator.rb:111-117 | one row per distinct `YYYY-MM` with its number of posts, the counts summing to the number of posts, keys strictly descending |
| Calculator.MonthTable | lib/jekyll-stats/stats_calculator.rb:111-117 | `posts_by_month` over each post's `%Y-%m` key (Calculator.MonthKeys); MonthTableFacts states its rows |
| Calculator.MonthKey | lib/jekyll-stats/stats_calculator.rb:112 | `strftime("%Y-%m")`: four-digit year, dash, two-digit month |
| Calculator.DateString | lib/jekyll-stats/stats_calculator.rb:89 | `strftime("%Y-%m-%d")`: four-digit year, two-digit month and day |
| CalculatorLemmas.WeekdayNameCount | lib/jekyll-stats/stats_calculator.rb:122 | a weekday's name occurs once for each post on that weekday |
| CalculatorLemmas.DayTableRows | lib/jekyll-stats/stats_calculator.rb:119-124 | exactly seven rows, sunday to saturday in order, each with the number of posts on that day |
| CalculatorLemmas.DayTableSum | lib/jekyll-stats/stats_calculator.rb:119-124 | the weekday counts sum to the number of posts |
| Calculator.DayTable | lib/jekyll-stats/stats_calculator.rb:119-124 | `posts_by_day_of_week`; DayTableRows and DayTableSum state its rows |
| CalculatorLemmas.OccurrencesLength | lib/jekyll-stats/stats_calculator.rb:128-131 | there is one normalised occurrence per tag entry |
| CalculatorLemmas.OccurrencesHas | lib/jekyll-stats/stats_calculator.rb:130 | every entry's normal form is among the occurrences |
| CalculatorLemmas.NameTableFacts | lib/jekyll-stats/stats_calculator.rb:126-148 | distinct normalised names, each with its number of occurrences, the counts summing to the number of entries, non-increasing by count, and every entry's name present |
| Calculator.NameTable | lib/jekyll-stats/stats_calculator.rb:126-148 | `tag_counts` over each post's tags (Calculator.TagLists) and `category_counts` over its categories (Calculator.CategoryLists); NameTableFacts states its rows |
| CalculatorLemmas.TallyTwice | lib/jekyll-stats/stats_calculator.rb:127-131 | a name seen twice makes one row with count 2 |
| CalculatorLemmas.TagsMerge | test/stats_calculator_test.rb:83-93 | a post tagged "w," and a post tagged "w" give a single row `w` with count 2 |
| Formatter.FormatNumberGrouped | lib/jekyll-stats/formatter.rb:102-104 | reversing, putting a comma after each full group of three digits followed by another digit, and reversing back groups the digits in threes from the right |
| Formatter.FormatNumber | lib/jekyll-stats/formatter.rb:102-104 | `format_number`; FormatNumberGrouped and FormatNumberRoundTrip state what it prints |
| Formatter.FormatNumberSmall | lib/jekyll-stats/formatter.rb:102-104 | numbers below 1000 get no comma |
| Formatter.FormatNumberThousands | test/formatter_test.rb:30-38 | 5000 is printed "5,000" |
| Formatter.FormatNumberSixDigits | test/formatter_test.rb:110-116 | 123456 is printed "123,456" |
| Formatter.GroupedDigits | lib/jekyll-stats/formatter.rb:102-104 | removing the commas from the grouped form gives the plain decimal digits |
| Formatter.FormatNumberRoundTrip | lib/jekyll-stats/formatter.rb:102-104 | removing the commas gives back the decimal digits, which read back as the number |
| Formatter.FormatReadingTime | lib/jekyll-stats/formatter.rb:106-114 | the text ends in `m`, and has an hours part exactly when there are at least 60 minutes; ReadingTimeRoundTrip states what the parts read |
| Formatter.ReadingTimeRoundTrip | lib/jekyll-stats/formatter.rb:106-114 | reading "Hh Mm" as 60·H + M, or "Nm" as N, gives back the minutes; the minutes part M is always below 60, and there are no hours below 60 minutes, so H is minutes div 60 and M is minutes mod 60 |
| Formatter.ReadingTimeExamples | test/formatter_test.rb:40-54 | 45 minutes print "45m" and 125 print "2h 5m" |
| Formatter.Truncate | lib/jekyll-stats/formatter.rb:116-120 | a string no longer than the limit is unchanged; a longer one becomes its first `n` characters and "...", so never longer than n + 3 |
| Formatter.TruncateIdempotent | test/formatter_test.rb:100-108 | truncating twice gives what truncating once does |
| Formatter.MaxCount | lib/jekyll-stats/formatter.rb:76 | the largest year count, attained by some year, and 0 for no years |
| Formatter.BarLength | lib/jekyll-stats/formatter.rb:83 | `(count / max * 20).round`, computed exactly: round half-up of 20·count/max |
| Formatter.BarLengthBounds | lib/jekyll-stats/formatter.rb:83-84 | a bar is at most 20 long, exactly 20 at the maximum count, and empty for 0 |
| Formatter.BarLengthMonotone | lib/jekyll-stats/formatter.rb:83 | a larger count never gets a shorter bar |
| Formatter.FirstTen | lib/jekyll-stats/formatter.rb:80-91 | `first(10)`: the first ten elements, or all when there are fewer |
| Formatter.YearChart | lib/jekyll-stats/formatter.rb:72-88 | "" for no years; undefined exactly when every count is 0, because the bar divides by the maximum; otherwise the heading and one row per listed year (Formatter.ChartRows) |
| Formatter.YearChartLines | lib/jekyll-stats/formatter.rb:79-87 | the chart's lines are the heading and then one row per year among the first ten |
| Formatter.YearChartShowsYear | test/formatter_test.rb:56-63 | each of the first ten years has a row starting with "  year: " |
| Formatter.YearChartHeading | lib/jekyll-stats/formatter.rb:79 | the chart carries the heading "Posts by Year:" |
| Formatter.ChartHasRow | lib/jekyll-stats/formatter.rb:80-86 | each of the first ten rows is part of the chart |
| Formatter.ChartRow | lib/jekyll-stats/formatter.rb:85 | "  year: bar count"; YearChartShowsYear states that each shown year has one |
| Formatter.TopTagsShowsFirstTen | lib/jekyll-stats/formatter.rb:90-94 | each of the first ten tags (all of them when there are at most ten) appears in the block as "name (count)" |
| Formatter.TopTagsLayout | lib/jekyll-stats/formatter.rb:90-94 | the block is the heading with the number listed, then exactly the entries of the first min(10, number of tags) tags, in order, joined by " \| " |
| Formatter.TopTags | lib/jekyll-stats/formatter.rb:90-94 | `top_tags`; it has no contract of its own, and TopTagsLayout, TopTagsShowsFirstTen and TopTagsHeading state its output |
| Formatter.TopTagsHeading | test/formatter_test.rb:65-73 | the heading reads "Top k Tags:" with k the number listed, the smaller of 10 and the number of tags |
| Formatter.CategoriesLineShowsAll | lib/jekyll-stats/formatter.rb:96-100 | every category appears as "name (count)" |
| Formatter.CategoriesLine | lib/jekyll-stats/formatter.rb:96-100 | `categories_line`; CategoriesLineShowsAll states its contents |
| Formatter.PostSummaryParts | lib/jekyll-stats/formatter.rb:48-53 | the summary holds "Posts: N", the grouped word count followed by " words", and "~time read time" |
| Formatter.PostSummary | lib/jekyll-stats/formatter.rb:48-53 | `post_summary`; PostSummaryParts states its parts |
| Formatter.AveragesLineQuotesTitle | lib/jekyll-stats/formatter.rb:55-59 | the averages line quotes the longest post's title truncated to 30 |
| Formatter.AveragesLine | lib/jekyll-stats/formatter.rb:55-59 | `averages_line`; AveragesLineQuotesTitle states the quoted title |
| Formatter.DateRangeLineParts | lib/jekyll-stats/formatter.rb:61-66 | the line names the first date, the last date and the years active in tenths, and that number reads back from its text |
| Formatter.DateRangeLine | lib/jekyll-stats/formatter.rb:61-66 | `date_range_line`; DateRangeLineParts states its parts |
| Formatter.FrequencyLineReadsBack | lib/jekyll-stats/formatter.rb:68-70 | between "Frequency: " and " posts/month" stands "Infinity" for an infinite rate, otherwise an optional minus sign and text that reads back as the rate in tenths |
| Formatter.FrequencyLine | lib/jekyll-stats/formatter.rb:68-70 | `frequency_line`; FrequencyLineReadsBack states what it shows |
| Formatter.RateText | lib/jekyll-stats/formatter.rb:69 | `Float#to_s` of the rate: "Infinity", or an optional minus and "N.D" |
| Numerals.TenthsRoundTrip | lib/jekyll-stats/formatter.rb:65-69 | a one-decimal number printed as "N.D" reads back as the same number of tenths |
| Formatter.Select | lib/jekyll-stats/formatter.rb:27-40 | a part is kept exactly when it is in the list and the record shows it |
| Formatter.SelectAscending | lib/jekyll-stats/formatter.rb:14-45 | selecting parts keeps their order |
| Formatter.OrderFacts | lib/jekyll-stats/formatter.rb:14-45 | the report's parts, in order, with the banner first |
| Formatter.Layout | lib/jekyll-stats/formatter.rb:14-45 | the parts shown, in the fixed order: banner first, closing rule last; the tags, categories and drafts parts exactly when the record has any |
| Formatter.FirstAndLast | lib/jekyll-stats/formatter.rb:14-45 | in ordered parts holding the banner and the footer, those come first and last |
| Formatter.ToTerminal | lib/jekyll-stats/formatter.rb:11-46 | exactly "No posts found." with no posts; otherwise a failure exactly when an entry is missing or the chart is undefined |
| ReportLemmas.LinesOfAppend | lib/jekyll-stats/formatter.rb:14-43 | the lines of consecutive parts are the parts' lines in turn |
| ReportLemmas.LinesOfHas | lib/jekyll-stats/formatter.rb:14-43 | each line of a listed part is among the report's lines |
| ReportLemmas.LinesFrame | lib/jekyll-stats/formatter.rb:14-45 | the report's lines start with an empty line and end with the rule and an empty line |
| ReportLemmas.ReportFrame | lib/jekyll-stats/formatter.rb:12-45 | a report with posts starts with a newline and ends with "\n" + rule + "\n", so it is never "No posts found." |
| ReportLemmas.ShownLine | lib/jekyll-stats/formatter.rb:14-45 | every line of a part the record shows is in the report |
| ReportLemmas.ReportHasFixedLines | lib/jekyll-stats/formatter.rb:19-25 | the summary, averages, date-range and frequency lines and the chart are all in the report |
| ReportLemmas.ReportShowsDrafts | test/formatter_test.rb:84-90 | with drafts, the report holds "Drafts: n" |
| ReportLemmas.ReportShowsTopTags | test/formatter_test.rb:65-73 | each of the first ten tags appears as "name (count)" |
| ReportLemmas.ReportShowsCategories | test/formatter_test.rb:75-82 | every category appears as "name (count)" |
| ReportLemmas.ReportShowsSummary | test/formatter_test.rb:30-54 | the report holds "Posts: N", the grouped word count and " words", and the reading time followed by " read time" |
| ReportLemmas.ReportShowsLongestTitle | test/formatter_test.rb:100-108 | the report quotes the longest post's title truncated to 30 |
| ReportLemmas.ReportShowsYears | test/formatter_test.rb:56-63 | with years, the report holds "Posts by Year:" and a row for each of the first ten years |
| ReportLemmas.ReportShowsTagHeading | test/formatter_test.rb:65-73 | with tags, the report holds "Top k Tags:" |
| ReportLemmas.PositiveMax | lib/jekyll-stats/formatter.rb:76-83 | when the year counts add up to more than 0, the maximum is positive |
| ReportLemmas.SummaryRenders | lib/jekyll-stats/formatter.rb:11-46 | the record built from any non-empty list of posts renders |
| ReportLemmas.CalculateSummarizes | lib/jekyll-stats/stats_calculator.rb:15-45 | when posts are collected, `calculate` is the record built from them with the site's draft count |
| ReportLemmas.CalculatedReport | lib/jekyll-stats/formatter.rb:11-46 | for every site where collecting succeeds, calculating and rendering succeed, and the report is "No posts found." exactly when no post was collected |

## Left out

- `lib/jekyll-stats/command.rb` is not part of this model. It covers command-line options, site loading, JSON output and writing the statistics file.
- `test/test_helper.rb` is not part of this model. It only creates and deletes fixture files.
- `generated_at` is left out of the record because it reads the wall clock.
- Floating point is modelled as tenths with exact rounding. There are three consequences:
  - Calculator.YearsActive: rounds the exact quotient, where Ruby rounds the float `seconds / 86400.0 / 365.25`, which can differ when the exact quotient is within a rounding error of a half tenth.
  - Calculator.PostsPerMonth: rounds the exact quotient, where Ruby rounds the float `count / months.to_f`, with the same caveat.
  - Formatter.BarLength: rounds 20·count/max exactly, where Ruby multiplies the float `count.to_f / max_count` by 20 before `round`, with the same caveat.
- Formatter.DateRangeLineParts and Formatter.FrequencyLineReadsBack: the lines print tenths as "N.D", with a minus sign for a negative rate and "Infinity" for an infinite one (`Float#to_s` for the values that occur). Ruby's exponent form for very large or very small floats is not modelled.
- Ordering among equal keys is not modelled. Ruby's `sort_by` is not stable, and the source does not promise which of several equal posts, tags or dates comes first. The model sorts with one particular total preorder and proves only the ordering and the contents. The cases are:
  - Calculator.Longest: only the word-count property, not which of several tied posts;
  - Calculator.Shortest: the same;
  - Calculator.Earliest: only the date property;
  - Calculator.Latest: the same.
- Regular expressions are written out by hand, one function per pattern, with ASCII `\s` (`[ \t\n\v\f\r]`) and ASCII `\w`. Unicode behaviour is not modelled.
- Markup.Tokens: omits the leading empty field that `split(/\s+/)` returns for text that starts with whitespace. That field has no word character, so the count is unaffected.
- Jekyll's `post.data[...]`, `site.respond_to?(:drafts)` and `strftime` are replaced by plain record fields:
  - the drafts as unavailable, nil or a list;
  - the date's calendar fields and instant as stored numbers.
- CalculatorLemmas.SpanWellDefined: assumes calendar-consistent dates. With mixed UTC offsets, two posts at the same extreme instant can lie in different months, and the span then depends on which of them Ruby's unstable sort puts first. The model uses its own sort's choice.
- Calculator.PostsPerMonth: assumes that `Float#round(1)` of an infinite quotient returns the infinity unchanged, and that a negative quotient rounds half away from zero.
- Calculator.EmptyStats: `posts_per_month` is the integer 0 in the source and `Rate(false, 0)` here. The difference shows only in output that is not modelled, since a record without posts renders as "No posts found.".
- Calculator.EmptyStats: reports 0 drafts even when the site has drafts, as the code does (`stats_calculator.rb:174`). This means a site whose only documents are drafts that were not collected reports no drafts.
- The report's glyphs (the chart emoji, the box-drawing rule and the bar block) are opaque constant code points.
- ReportLemmas.ReportShowsDrafts: proves that the drafts line appears when there are drafts. The converse, that "Drafts:" is absent otherwise, is stated at the level of the report's parts (Formatter.Layout). The text alone cannot show it, since a title or tag may itself contain "Drafts:".
- Markup.PlainWordsCount: stated for any list of plain words. The same goes for Markup.WordCountTagIsSpace and Markup.WordCountLinkIsLabel, which are stated for any surrounding text. The tests' literal sentences are instances.
- Years are natural numbers; negative years are not modelled.
