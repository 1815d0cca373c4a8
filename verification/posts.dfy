/**
 The calculator's inputs: a post record standing in for a Jekyll document, the
 site that holds the published posts and the drafts, tag normalisation, and
 `collect_posts` with its tag filter.
 */
module Posts {
  import opened Outcomes
  import opened Text

  type Month = m: nat | 1 <= m <= 12 witness 1
  type Day = d: nat | 1 <= d <= 31 witness 1
  /** `Time#wday`: 0 is Sunday. */
  type Weekday = w: nat | w < 7

  /** A post's `date`: the calendar fields in the post's own offset, and the instant, in
      seconds, that `Time#<=>` and `Time#-` work on. */
  datatype Timestamp = Timestamp(year: nat, month: Month, day: Day, wday: Weekday, instant: int)

  /** A Jekyll document as the calculator reads it: `data["title"]` (possibly absent), `url`,
      `date`, `content`, and the `tags` and `categories` lists (an absent list is empty). */
  datatype Post = Post(
    title: Option<string>,
    url: string,
    date: Timestamp,
    content: string,
    tags: seq<string>,
    categories: seq<string>)

  /** What `site.drafts` gives: the site may not answer `drafts` at all, may answer `nil`, or
      may hold a list of documents. */
  datatype Drafts = DraftsUnavailable | DraftsNil | DraftsList(docs: seq<Post>)

  datatype Site = Site(posts: seq<Post>, drafts: Drafts)

  /** `posts += site.drafts` with `site.drafts == nil` raises a `TypeError`. */
  datatype Failure = NilDrafts

  // ---------------------------------------------------------------------------
  // normalize_tag
  // ---------------------------------------------------------------------------

  /** The characters `/[,;:]+\z/` removes from the end of a tag. */
  predicate IsListPunct(c: char) {
    c == ',' || c == ';' || c == ':'
  }

  /** `tag.to_s.strip.gsub(/[,;:]+\z/, "").strip`. */
  function NormalizeTag(t: string): (r: string)
    ensures r == [] || (!IsStripSpace(r[0]) && !IsStripSpace(r[|r| - 1]))
    ensures IsInfix(r, t)
  {
    var s := Strip(t);
    var u := DropLastWhile(s, IsListPunct);
    var r := Strip(u);
    assert InfixAt(u, s, 0);
    InfixTransitive(r, u, s);
    InfixTransitive(r, s, t);
    r
  }

  /** Dropping a leading run is unaffected by what follows the character that stops it. */
  lemma {:induction false} DropWhileAppend(a: string, b: string, p: char -> bool)
    requires a != [] && !p(a[|a| - 1])
    ensures DropWhile(a + b, p) == DropWhile(a, p) + b
    decreases |a|
  {
    assert (a + b)[0] == a[0];
    if p(a[0]) {
      assert |a| > 1;
      assert (a + b)[1..] == a[1..] + b;
      DropWhileAppend(a[1..], b, p);
    }
  }

  /** A word as tags usually are: not empty, no blank at either end, no list punctuation last. */
  predicate IsCleanTag(w: string) {
    w != [] && !IsStripSpace(w[0]) && !IsStripSpace(w[|w| - 1]) && !IsListPunct(w[|w| - 1])
  }

  /** A clean tag is its own normal form. */
  lemma NormalizeCleanTag(w: string)
    requires IsCleanTag(w)
    ensures NormalizeTag(w) == w
  {
    assert Strip(w) == w;
    assert DropLastWhile(w, IsListPunct) == w;
  }

  /** Stripping `w + x` for a clean tag `w` trims only the end. */
  lemma StripAfterClean(w: string, x: string)
    requires IsCleanTag(w)
    ensures Strip(w + x) == DropLastWhile(w + x, IsStripSpace)
  {
    assert (w + x)[0] == w[0];
  }

  /** Trailing list punctuation never makes a separate tag: `w + p` normalises to `w`. */
  lemma NormalizeTagTrailingPunct(w: string, p: string)
    requires IsCleanTag(w)
    requires forall k :: 0 <= k < |p| ==> IsListPunct(p[k])
    ensures NormalizeTag(w + p) == w
  {
    var s := w + p;
    StripAfterClean(w, p);
    assert (w + p)[|w + p| - 1] == if p == [] then w[|w| - 1] else p[|p| - 1];
    assert Strip(s) == s;
    DropLastWhileAppend(w, p, IsListPunct);
    NormalizeCleanTag(w);
  }

  /** "opensource," and "opensource" are the same tag (for any clean tag in place of "opensource"). */
  lemma NormalizeTagMerges(w: string)
    requires IsCleanTag(w)
    ensures NormalizeTag(w + ",") == NormalizeTag(w) == w
  {
    NormalizeTagTrailingPunct(w, ",");
    NormalizeCleanTag(w);
  }

  /** Only one trailing run is removed, so normalising is not idempotent: "a, ," becomes "a,",
      which normalises in turn to "a". */
  lemma NormalizeTagNotIdempotent(w: string)
    requires IsCleanTag(w)
    ensures NormalizeTag(w + ", ,") == w + ","
    ensures NormalizeTag(w + ",") == w
  {
    var s := w + ", ,";
    StripAfterClean(w, ", ,");
    assert s[|s| - 1] == ',';
    assert Strip(s) == s;
    assert s[..|s| - 1] == w + ", ";
    var u := w + ", ";
    assert u[|u| - 1] == ' ';
    assert DropLastWhile(s, IsListPunct) == u;
    StripAfterClean(w, ", ");
    assert u[..|u| - 1] == w + ",";
    assert DropLastWhile(u, IsStripSpace) == w + ",";
    NormalizeTagTrailingPunct(w, ",");
  }

  function NormalizeAll(ts: seq<string>): (r: seq<string>)
    ensures |r| == |ts| && forall i :: 0 <= i < |ts| ==> r[i] == NormalizeTag(ts[i])
  {
    seq(|ts|, i requires 0 <= i < |ts| => NormalizeTag(ts[i]))
  }

  // ---------------------------------------------------------------------------
  // normalize_filter_tags, filter_posts_by_tags, collect_posts, drafts_count
  // ---------------------------------------------------------------------------

  /** `normalize_filter_tags`: no filter when none is given or the list is empty. */
  function NormalizeFilterTags(raw: Option<seq<string>>): (r: Option<seq<string>>)
    ensures r.None? <==> raw.None? || raw.value == []
    ensures r.Some? ==> |r.value| == |raw.value|
    ensures r.Some? ==> forall i :: 0 <= i < |raw.value| ==> r.value[i] == NormalizeTag(raw.value[i])
  {
    if raw.None? || raw.value == [] then None else Some(NormalizeAll(raw.value))
  }

  /** `(filter_tags & post_tags).any?`: some filter tag is among the post's normalised tags. */
  predicate SharesTag(filter: seq<string>, post: Post) {
    exists i :: 0 <= i < |filter| && filter[i] in NormalizeAll(post.tags)
  }

  /** The elements of `xs` satisfying `keep`, in their order. */
  function KeepIf<T>(xs: seq<T>, keep: T -> bool): (r: seq<T>)
    ensures |r| <= |xs|
  {
    if xs == [] then [] else (if keep(xs[0]) then [xs[0]] else []) + KeepIf(xs[1..], keep)
  }

  /** Each element satisfying `keep` is kept as often as it occurs; every other one is dropped. */
  lemma {:induction false} KeepIfCounts<T>(xs: seq<T>, keep: T -> bool, x: T)
    ensures multiset(KeepIf(xs, keep))[x] == if keep(x) then multiset(xs)[x] else 0
    decreases |xs|
  {
    if xs != [] {
      KeepIfCounts(xs[1..], keep, x);
      assert xs == [xs[0]] + xs[1..];
    }
  }

  /** Keeping distributes over concatenation, so kept elements stay in their original order. */
  lemma {:induction false} KeepIfAppend<T>(a: seq<T>, b: seq<T>, keep: T -> bool)
    ensures KeepIf(a + b, keep) == KeepIf(a, keep) + KeepIf(b, keep)
    decreases |a|
  {
    if a == [] {
      assert a + b == b;
    } else {
      var ab := a + b;
      var head := if keep(a[0]) then [a[0]] else [];
      assert ab[0] == a[0] && ab[1..] == a[1..] + b;
      assert KeepIf(ab, keep) == head + KeepIf(ab[1..], keep);
      assert KeepIf(a, keep) == head + KeepIf(a[1..], keep);
      KeepIfAppend(a[1..], b, keep);
      var x, y := KeepIf(a[1..], keep), KeepIf(b, keep);
      assert head + (x + y) == (head + x) + y;
    }
  }

  /** `filter_posts_by_tags`: keeps, in order, the posts sharing a tag with the filter. */
  function FilterPostsByTags(posts: seq<Post>, filter: seq<string>): (r: seq<Post>)
    ensures |r| <= |posts|
  {
    KeepIf(posts, p => SharesTag(filter, p))
  }

  /** Each post sharing a tag with the filter is kept as often as it occurs; every other post
      is dropped. */
  lemma FilterPostsByTagsCounts(posts: seq<Post>, filter: seq<string>, post: Post)
    ensures multiset(FilterPostsByTags(posts, filter))[post] == if SharesTag(filter, post) then multiset(posts)[post] else 0
  {
    KeepIfCounts(posts, p => SharesTag(filter, p), post);
  }

  /** A post without tags never passes a filter. */
  lemma FilterDropsUntagged(posts: seq<Post>, filter: seq<string>, p: Post)
    requires p.tags == []
    ensures p !in FilterPostsByTags(posts, filter)
  {
    FilterPostsByTagsCounts(posts, filter, p);
    assert multiset(FilterPostsByTags(posts, filter))[p] == 0;
  }

  /** Filtering distributes over concatenation, so kept posts stay in their original order. */
  lemma FilterPostsByTagsAppend(a: seq<Post>, b: seq<Post>, filter: seq<string>)
    ensures FilterPostsByTags(a + b, filter) == FilterPostsByTags(a, filter) + FilterPostsByTags(b, filter)
  {
    KeepIfAppend(a, b, p => SharesTag(filter, p));
  }

  /** The published posts, followed by the drafts when they are asked for and the site has a list. */
  function Pool(site: Site, includeDrafts: bool): seq<Post> {
    if includeDrafts && site.drafts.DraftsList? then site.posts + site.drafts.docs else site.posts
  }

  /** `collect_posts`, with the filter already normalised. */
  function CollectPosts(site: Site, includeDrafts: bool, filter: Option<seq<string>>): (r: Result<seq<Post>, Failure>)
    ensures r.Err? <==> includeDrafts && site.drafts.DraftsNil?
    ensures r.Ok? && filter.None? ==> r.value == Pool(site, includeDrafts)
    ensures r.Ok? && filter.Some? ==> r.value == FilterPostsByTags(Pool(site, includeDrafts), filter.value)
  {
    if includeDrafts && site.drafts.DraftsNil? then Err(NilDrafts)
    else
      var pool := Pool(site, includeDrafts);
      if filter.None? then Ok(pool) else Ok(FilterPostsByTags(pool, filter.value))
  }

  /** Without a filter, drafts are collected exactly when they are asked for. */
  lemma CollectPostsDrafts(site: Site, includeDrafts: bool, d: Post)
    requires site.drafts.DraftsList? && d in site.drafts.docs && d !in site.posts
    ensures CollectPosts(site, includeDrafts, None).Ok?
    ensures d in CollectPosts(site, includeDrafts, None).value <==> includeDrafts
  {
  }

  /** `drafts_count`: the size of the site's draft list, 0 when there is none. */
  function DraftsCount(site: Site): (n: nat)
    ensures site.drafts.DraftsList? ==> n == |site.drafts.docs|
    ensures !site.drafts.DraftsList? ==> n == 0
  {
    if site.drafts.DraftsList? then |site.drafts.docs| else 0
  }
}
