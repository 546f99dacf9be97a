/** The two tables crawl.py builds from the per-post table (lines 121-133): the per-category
    summary sorted by average engagement rate, and the three best posts of every category. */
module Aggregate {
  import opened Seqs
  import opened Stats
  import opened Posts

  /** The categories in the order `groupby` sorts their names. */
  const Categories: seq<Category> := [Beauty, Family, Finance, Fitness, Food, Tech, Travel]

  /** Every category is listed, each name strictly after the one before it. */
  lemma CategoriesInNameOrder()
    ensures forall c: Category :: c in Categories
    ensures forall i, j :: 0 <= i < j < |Categories| ==>
      NameLess(Categories[i].Name(), Categories[j].Name())
  {
    CategoryRanks();
    forall c: Category ensures c in Categories {
      var i := c.Rank();
      RankFollowsNames(Categories[i], c);
      assert Categories[i] == c;
    }
    forall i, j | 0 <= i < j < |Categories|
      ensures NameLess(Categories[i].Name(), Categories[j].Name())
    {
      RankFollowsNames(Categories[i], Categories[j]);
    }
  }

  /** Each category sits at the position of its rank. */
  lemma CategoryRanks()
    ensures forall i :: 0 <= i < |Categories| ==> Categories[i].Rank() == i
    ensures forall c: Category :: c.Rank() < |Categories|
  {
    forall c: Category ensures c.Rank() < |Categories| {
      match c
      case Beauty =>
      case Family =>
      case Finance =>
      case Fitness =>
      case Food =>
      case Tech =>
      case Travel =>
    }
  }

  function RankLess(a: Category, b: Category): bool { a.Rank() < b.Rank() }

  function InCategory(c: Category): Post -> bool { (p: Post) => p.category == c }

  /** The rows of category c, in table order. */
  function Group(posts: seq<Post>, c: Category): seq<Post>
  {
    Filter(posts, InCategory(c))
  }

  function ImpressionsOf(p: Post): real { p.impressions as real }

  function EngagementOf(p: Post): real { p.engagement as real }

  function RateOf(p: Post): real { p.engagementRate }

  function WordCountOf(p: Post): real { p.wordCount as real }

  function SentimentOf(p: Post): real { p.sentimentScore as real }

  /** A row of the summary table (lines 121-129). */
  datatype Summary = Summary(
    category: Category, postsCount: nat,
    avgImpressions: real, medianImpressions: real, avgEngagement: real,
    avgEngagementRate: real, medianEngagementRate: real, avgWordCount: real, avgSentiment: real)

  /** The aggregates of lines 121-129 over the rows of one category: the row is labelled with
      the category and counts its posts, of which there is at least one. */
  function Summarize(posts: seq<Post>, c: Category): (r: Summary)
    requires Group(posts, c) != []
    ensures r.category == c && r.postsCount == CountIf(posts, InCategory(c)) > 0
  {
    var g := Group(posts, c);
    FilterCount(posts, InCategory(c));
    Summary(c, |g|,
      Mean(Map(g, ImpressionsOf)), Median(Map(g, ImpressionsOf)), Mean(Map(g, EngagementOf)),
      Mean(Map(g, RateOf)), Median(Map(g, RateOf)), Mean(Map(g, WordCountOf)),
      Mean(Map(g, SentimentOf)))
  }

  function HasRows(posts: seq<Post>): Category -> bool { c => Group(posts, c) != [] }

  /** The groups of `groupby('category')`: the categories that have rows, in name order. */
  function PresentCategories(posts: seq<Post>): seq<Category>
  {
    Filter(Categories, HasRows(posts))
  }

  /** Lines 121-129: one summary per category that has rows, in name order. */
  function GroupSummaries(posts: seq<Post>): (r: seq<Summary>)
    ensures |r| == |PresentCategories(posts)|
  {
    var cs := PresentCategories(posts);
    seq(|cs|, i requires 0 <= i < |cs| => Summarize(posts, cs[i]))
  }

  function RateDescending(a: Summary, b: Summary): bool
  {
    a.avgEngagementRate >= b.avgEngagementRate
  }

  lemma RateDescendingIsTotal()
    ensures TotalPreorder(RateDescending)
  {
  }

  /** Line 130: the summaries reordered so that the average engagement rate never increases. */
  function CategorySummary(posts: seq<Post>): (r: seq<Summary>)
    ensures multiset(r) == multiset(GroupSummaries(posts))
    ensures forall i, j :: 0 <= i < j < |r| ==> r[i].avgEngagementRate >= r[j].avgEngagementRate
  {
    RateDescendingIsTotal();
    var r := SortBy(GroupSummaries(posts), RateDescending);
    assert forall i, j :: 0 <= i < j < |r| ==> RateDescending(r[i], r[j]);
    r
  }

  /** Every summary row holds the aggregates of its own category, which has as many rows as the
      row count says, and at least one. */
  lemma SummaryRows(posts: seq<Post>, i: nat)
    requires i < |CategorySummary(posts)|
    ensures var row := CategorySummary(posts)[i];
      Group(posts, row.category) != [] && row == Summarize(posts, row.category) &&
      row.postsCount == CountIf(posts, InCategory(row.category)) > 0
  {
    var r, g := CategorySummary(posts), GroupSummaries(posts);
    var cs := PresentCategories(posts);
    assert r[i] in multiset(g);
    var j :| 0 <= j < |g| && g[j] == r[i];
    assert HasRows(posts)(cs[j]);
    FilterCount(posts, InCategory(cs[j]));
  }

  /** The summary has a row for category c exactly when some post has category c. */
  lemma SummaryCovers(posts: seq<Post>, c: Category)
    ensures (exists i :: 0 <= i < |CategorySummary(posts)| && CategorySummary(posts)[i].category == c)
      <==> CountIf(posts, InCategory(c)) > 0
  {
    var r := CategorySummary(posts);
    if exists i :: 0 <= i < |r| && r[i].category == c {
      var i :| 0 <= i < |r| && r[i].category == c;
      SummaryRows(posts, i);
    }
    if CountIf(posts, InCategory(c)) > 0 {
      PresentCategoryHasRow(posts, c);
    }
  }

  /** A category with posts has a row in the summary. */
  lemma PresentCategoryHasRow(posts: seq<Post>, c: Category)
    requires CountIf(posts, InCategory(c)) > 0
    ensures exists i :: 0 <= i < |CategorySummary(posts)| && CategorySummary(posts)[i].category == c
  {
    var j := GroupSummaryOf(posts, c);
    var r, g := CategorySummary(posts), GroupSummaries(posts);
    var i := PermutedIndex(g, r, j);
    assert r[i].category == c;
  }

  /** The position of category c among the summaries before the sort. */
  lemma GroupSummaryOf(posts: seq<Post>, c: Category) returns (j: nat)
    requires CountIf(posts, InCategory(c)) > 0
    ensures j < |GroupSummaries(posts)| && GroupSummaries(posts)[j].category == c
  {
    var cs := PresentCategories(posts);
    assert c in cs by {
      FilterCount(posts, InCategory(c));
      CategoriesInNameOrder();
      FilterMembers(Categories, HasRows(posts), c);
    }
    j :| 0 <= j < |cs| && cs[j] == c;
    GroupSummariesOfGroups(posts);
  }

  /** The groups come in rank order, each category at most once. */
  lemma PresentCategoriesInOrder(posts: seq<Post>)
    ensures SortedBy(PresentCategories(posts), RankLess)
  {
    assert SortedBy(Categories, RankLess) by {
      CategoryRanks();
    }
    FilterSorted(Categories, HasRows(posts), RankLess);
  }

  /** The summary rows before the sort are those of the groups, in order. */
  lemma GroupSummariesOfGroups(posts: seq<Post>)
    ensures var g, cs := GroupSummaries(posts), PresentCategories(posts);
      forall i :: 0 <= i < |g| ==>
        HasRows(posts)(cs[i]) && g[i] == Summarize(posts, cs[i]) && g[i].category == cs[i]
  {
  }

  /** Before the sort the rows follow the category names, one row per category. */
  lemma GroupSummariesInNameOrder(posts: seq<Post>)
    ensures var g := GroupSummaries(posts);
      forall i, j :: 0 <= i < j < |g| ==> g[i].category.Rank() < g[j].category.Rank()
  {
    PresentCategoriesInOrder(posts);
    GroupSummariesOfGroups(posts);
  }

  /** No category has two rows in the sorted summary. */
  lemma SummaryCategoriesDistinct(posts: seq<Post>)
    ensures var r := CategorySummary(posts);
      forall i, j :: 0 <= i < j < |r| ==> r[i].category != r[j].category
  {
    var r, g := CategorySummary(posts), GroupSummaries(posts);
    assert Distinct(g) by {
      GroupSummariesInNameOrder(posts);
    }
    DistinctPermutation(g, r);
    forall i, j | 0 <= i < j < |r| ensures r[i].category != r[j].category {
      SummaryRows(posts, i);
      SummaryRows(posts, j);
    }
  }

  function PostsCountOf(row: Summary): nat { row.postsCount }

  /** The number of posts of a category. */
  function CountIn(posts: seq<Post>): Category -> nat { c => CountIf(posts, InCategory(c)) }

  function SameCategory(c: Category): Category -> bool { d => d == c }

  /** Every category occurs once in the list of categories. */
  lemma CategoriesOnce(c: Category)
    ensures CountIf(Categories, SameCategory(c)) == 1
  {
    var p := SameCategory(c);
    var i := c.Rank();
    assert i < |Categories| && p(Categories[i]) by {
      CategoryRanks();
      RankFollowsNames(Categories[i], c);
    }
    assert forall j :: 0 <= j < |Categories| && j != i ==> !p(Categories[j]) by {
      CategoryRanks();
    }
    CountIfSingle(Categories, p, i);
  }

  /** Removing the first post lowers the count of its category by one and no other count. */
  lemma {:induction false} CountsWithoutFirst(posts: seq<Post>, cs: seq<Category>)
    requires posts != []
    ensures SumOf(cs, CountIn(posts)) ==
      SumOf(cs, CountIn(posts[1..])) + CountIf(cs, SameCategory(posts[0].category))
  {
    if cs != [] {
      CountsWithoutFirst(posts, cs[1..]);
    }
  }

  /** Over all categories the post counts add up to the number of posts. */
  lemma {:induction false} CountsOverCategories(posts: seq<Post>)
    ensures SumOf(Categories, CountIn(posts)) == |posts|
  {
    if posts == [] {
      assert forall c :: CountIn(posts)(c) == 0;
      assert SumOf(Categories, CountIn(posts)) == 0;
    } else {
      CountsOverCategories(posts[1..]);
      CountsWithoutFirst(posts, Categories);
      CategoriesOnce(posts[0].category);
    }
  }

  /** The row counts of the summary add up to the number of posts: every post is counted in
      exactly one row. */
  lemma SummaryCountsAddUp(posts: seq<Post>)
    ensures SumOf(CategorySummary(posts), PostsCountOf) == |posts|
  {
    var r, g := CategorySummary(posts), GroupSummaries(posts);
    var cs := PresentCategories(posts);
    SumOfPermutation(r, g, PostsCountOf);
    GroupSummariesOfGroups(posts);
    forall i | 0 <= i < |g| ensures PostsCountOf(g[i]) == CountIn(posts)(cs[i]) {
      FilterCount(posts, InCategory(cs[i]));
    }
    SumOfPointwise(g, cs, PostsCountOf, CountIn(posts));
    forall c | !HasRows(posts)(c) ensures CountIn(posts)(c) == 0 {
      FilterCount(posts, InCategory(c));
    }
    SumOfFilter(Categories, HasRows(posts), CountIn(posts));
    CountsOverCategories(posts);
  }

  /** Each average and median of the rate lies within any bounds that hold for all of the
      category's rates. */
  lemma SummaryRateWithin(posts: seq<Post>, c: Category, lo: real, hi: real)
    requires Group(posts, c) != []
    requires forall i :: 0 <= i < |posts| && posts[i].category == c ==>
      lo <= posts[i].engagementRate <= hi
    ensures lo <= Summarize(posts, c).avgEngagementRate <= hi
    ensures lo <= Summarize(posts, c).medianEngagementRate <= hi
  {
    var g := Group(posts, c);
    var rates := Map(g, RateOf);
    forall i | 0 <= i < |rates| ensures lo <= rates[i] <= hi {
      assert g[i] in g;
      FilterMembers(posts, InCategory(c), g[i]);
    }
    MeanWithin(rates, lo, hi);
    MedianWithin(rates, lo, hi);
  }

  // ---------------------------------------------------------------------------
  // Top posts per category
  // ---------------------------------------------------------------------------

  /** Line 132's order: category names ascending, then engagement rate descending. */
  function TopOrder(a: Post, b: Post): bool
  {
    a.category.Rank() < b.category.Rank() ||
    (a.category == b.category && a.engagementRate >= b.engagementRate)
  }

  lemma TopOrderIsTotal()
    ensures TotalPreorder(TopOrder)
  {
    forall a: Post, b: Post ensures TopOrder(a, b) || TopOrder(b, a) {
      RankFollowsNames(a.category, b.category);
    }
  }

  /** `groupby('category').head(n)`: a row is kept when fewer than n earlier rows share its
      category; the kept rows stay in table order. */
  function HeadPerGroup(s: seq<Post>, n: nat): (r: seq<Post>)
    ensures |r| <= |s|
  {
    if s == [] then []
    else
      var init, x := s[..|s| - 1], s[|s| - 1];
      HeadPerGroup(init, n) + (if CountIf(init, InCategory(x.category)) < n then [x] else [])
  }

  /** The top rows of lines 132-133: the sorted table, at most three rows per category. They are
      rows of the table, ordered by category name and, within a category, by falling rate. */
  function TopPosts(posts: seq<Post>): (top: seq<Post>)
    ensures multiset(top) <= multiset(posts)
    ensures forall i, j :: 0 <= i < j < |top| ==>
      top[i].category.Rank() < top[j].category.Rank() ||
      (top[i].category == top[j].category && top[i].engagementRate >= top[j].engagementRate)
  {
    TopOrderIsTotal();
    var sorted := SortBy(posts, TopOrder);
    HeadPerGroupRows(sorted, 3);
    HeadPerGroupSorted(sorted, 3, TopOrder);
    var top := HeadPerGroup(sorted, 3);
    assert forall i, j :: 0 <= i < j < |top| ==> TopOrder(top[i], top[j]);
    top
  }

  function Min(a: nat, b: nat): nat { if a <= b then a else b }

  /** A category keeps n of its rows, or all of them when it has fewer. */
  lemma {:induction false} HeadPerGroupCount(s: seq<Post>, n: nat, c: Category)
    ensures CountIf(HeadPerGroup(s, n), InCategory(c)) == Min(n, CountIf(s, InCategory(c)))
  {
    if s != [] {
      var init, x := s[..|s| - 1], s[|s| - 1];
      var tail := if CountIf(init, InCategory(x.category)) < n then [x] else [];
      HeadPerGroupCount(init, n, c);
      CountIfAppend(HeadPerGroup(init, n), tail, InCategory(c));
      FilterLast(s, InCategory(c));
    }
  }

  /** The kept rows of a category are its first rows in table order. */
  lemma {:induction false} HeadPerGroupFirst(s: seq<Post>, n: nat, c: Category)
    ensures |Filter(s, InCategory(c))| == CountIf(s, InCategory(c))
    ensures Filter(HeadPerGroup(s, n), InCategory(c)) ==
      Filter(s, InCategory(c))[..Min(n, CountIf(s, InCategory(c)))]
  {
    FilterCount(s, InCategory(c));
    if s != [] {
      HeadPerGroupFirst(s[..|s| - 1], n, c);
      HeadPerGroupFirstStep(s, n, c);
    }
  }

  /** The induction step of HeadPerGroupFirst: the last row joins the kept rows of its category
      exactly when fewer than n rows of that category precede it. */
  lemma HeadPerGroupFirstStep(s: seq<Post>, n: nat, c: Category)
    requires s != []
    requires |Filter(s[..|s| - 1], InCategory(c))| == CountIf(s[..|s| - 1], InCategory(c))
    requires Filter(HeadPerGroup(s[..|s| - 1], n), InCategory(c)) ==
      Filter(s[..|s| - 1], InCategory(c))[..Min(n, CountIf(s[..|s| - 1], InCategory(c)))]
    ensures |Filter(s, InCategory(c))| == CountIf(s, InCategory(c))
    ensures Filter(HeadPerGroup(s, n), InCategory(c)) ==
      Filter(s, InCategory(c))[..Min(n, CountIf(s, InCategory(c)))]
  {
    var p := InCategory(c);
    var init, x := s[..|s| - 1], s[|s| - 1];
    var fi, k := Filter(init, p), CountIf(init, p);
    var last := if p(x) then [x] else [];
    FilterLast(s, p);
    var tail := if CountIf(init, InCategory(x.category)) < n then [x] else [];
    var kept := Filter(HeadPerGroup(s, n), p);
    assert kept == fi[..Min(n, k)] + Filter(tail, p) by {
      FilterAppend(HeadPerGroup(init, n), tail, p);
    }
    assert Filter(tail, p) == if k < n then last else [] by {
      FilterLast([x], p);
      assert [x][..0] == [];
    }
    TakeAppend(fi, last, n);
    assert kept == (fi + last)[..Min(n, k + |last|)];
  }

  /** Taking min(n, |fi|) elements of fi and then the possible next element `last` when there was
      room for it takes min(n, |fi| + |last|) elements of fi + last. */
  lemma TakeAppend(fi: seq<Post>, last: seq<Post>, n: nat)
    requires |last| <= 1
    ensures fi[..Min(n, |fi|)] + (if |fi| < n then last else []) == (fi + last)[..Min(n, |fi| + |last|)]
  {
    if |fi| >= n {
      assert (fi + last)[..n] == fi[..n];
    }
  }

  /** Every kept row is a row of the table. */
  lemma {:induction false} HeadPerGroupRows(s: seq<Post>, n: nat)
    ensures multiset(HeadPerGroup(s, n)) <= multiset(s)
  {
    if s != [] {
      var init := s[..|s| - 1];
      HeadPerGroupRows(init, n);
      assert s == init + [s[|s| - 1]];
    }
  }

  /** Keeping some rows of a sorted table leaves it sorted. */
  lemma {:induction false} HeadPerGroupSorted(s: seq<Post>, n: nat, le: (Post, Post) -> bool)
    requires SortedBy(s, le)
    ensures SortedBy(HeadPerGroup(s, n), le)
  {
    if s != [] {
      var init, x := s[..|s| - 1], s[|s| - 1];
      var h := HeadPerGroup(init, n);
      assert SortedBy(init, le);
      HeadPerGroupSorted(init, n, le);
      HeadPerGroupRows(init, n);
      if CountIf(init, InCategory(x.category)) < n {
        var r := h + [x];
        forall i, j | 0 <= i < j < |r| ensures le(r[i], r[j]) {
          if j == |h| {
            assert r[i] in multiset(init);
            var m :| 0 <= m < |init| && init[m] == r[i];
            assert s[m] == r[i];
          } else {
            assert r[i] == h[i] && r[j] == h[j];
          }
        }
      }
    }
  }

  /** Every category contributes three rows, or all of its rows when it has fewer. */
  lemma TopPostsPerCategory(posts: seq<Post>, c: Category)
    ensures CountIf(TopPosts(posts), InCategory(c)) == Min(3, CountIf(posts, InCategory(c)))
  {
    TopOrderIsTotal();
    var sorted := SortBy(posts, TopOrder);
    HeadPerGroupCount(sorted, 3, c);
    CountIfPermutation(sorted, posts, InCategory(c));
  }

  /** A post left out of the top rows has a rate no higher than any top row of its category. */
  lemma TopPostsDominate(posts: seq<Post>, x: Post, y: Post)
    requires x in TopPosts(posts) && y in posts && y !in TopPosts(posts)
    requires x.category == y.category
    ensures x.engagementRate >= y.engagementRate
  {
    TopOrderIsTotal();
    var sorted := SortBy(posts, TopOrder);
    assert y in multiset(sorted);
    HeadPerGroupDominates(sorted, 3, x, y, TopOrder);
  }

  /** In a sorted table, a kept row comes before every left-out row of its category. */
  lemma HeadPerGroupDominates(s: seq<Post>, n: nat, x: Post, y: Post, le: (Post, Post) -> bool)
    requires SortedBy(s, le)
    requires x in HeadPerGroup(s, n) && y in s && y !in HeadPerGroup(s, n)
    requires x.category == y.category
    ensures le(x, y)
  {
    var c := x.category;
    var p := InCategory(c);
    var top := HeadPerGroup(s, n);
    var f := Filter(s, p);
    var m := Min(n, CountIf(s, p));
    assert m <= |f| && Filter(top, p) == f[..m] by {
      HeadPerGroupFirst(s, n, c);
    }
    assert x in f[..m] && y !in f[..m] by {
      FilterMembers(top, p, x);
      FilterMembers(top, p, y);
    }
    assert y in f by {
      FilterMembers(s, p, y);
    }
    FilterSorted(s, p, le);
    SortedPrefixBefore(f, m, x, y, le);
  }
}
