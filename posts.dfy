/** The per-post table of crawl.py from the cleaned text on (lines 82-117): the cleaned-text
    column, the imputed impressions, the empty-text filter and the derived columns. */
module Posts {
  import opened Wrappers
  import opened Seqs
  import opened TextClean
  import opened Sentiment
  import opened Impute

  /** The seven categories of the generator, declared in the alphabetical order of their names. */
  datatype Category = Beauty | Family | Finance | Fitness | Food | Tech | Travel
  {
    function Name(): string
    {
      match this
      case Beauty => "beauty"
      case Family => "family"
      case Finance => "finance"
      case Fitness => "fitness"
      case Food => "food"
      case Tech => "tech"
      case Travel => "travel"
    }

    /** Position in the order `groupby` sorts the category names in. */
    function Rank(): nat
    {
      match this
      case Beauty => 0
      case Family => 1
      case Finance => 2
      case Fitness => 3
      case Food => 4
      case Tech => 5
      case Travel => 6
    }
  }

  /** Python's `<` on strings: code point by code point, a proper prefix first. */
  predicate NameLess(a: string, b: string)
    decreases |a|
  {
    if a == [] then b != []
    else if b == [] then false
    else if a[0] != b[0] then a[0] < b[0]
    else NameLess(a[1..], b[1..])
  }

  lemma {:induction false} NameLessIrreflexive(s: string)
    ensures !NameLess(s, s)
  {
    if s != [] {
      NameLessIrreflexive(s[1..]);
    }
  }

  /** Ranks order the categories exactly as their names compare, and no two share a rank. */
  lemma RankFollowsNames(a: Category, b: Category)
    ensures a.Rank() < b.Rank() <==> NameLess(a.Name(), b.Name())
    ensures a.Rank() == b.Rank() <==> a == b
  {
    var x, y := a.Name(), b.Name();
    if a == b {
      NameLessIrreflexive(x);
    } else if x[0] == y[0] {
      assert x[1..][0] == x[1] && y[1..][0] == y[1];
      if x[1] == y[1] {
        assert x[1..][1..] == x[2..] && y[1..][1..] == y[2..];
        assert x[2..][0] == x[2] && y[2..][0] == y[2];
        assert NameLess(x[1..], y[1..]) == NameLess(x[2..], y[2..]);
      }
    }
  }

  /** A row of the generated table as far as the core reads it; text and impressions may be
      missing. */
  datatype RawPost = RawPost(
    id: string, category: Category, text: Option<string>, impressions: Option<int>,
    likes: nat, retweets: nat, replies: nat)

  /** A row after line 87: the cleaned text is added and impressions are filled in. */
  datatype CleanPost = CleanPost(
    id: string, category: Category, text: Option<string>, textClean: string, impressions: int,
    likes: nat, retweets: nat, replies: nat)

  /** A row of the final table with the derived columns of lines 93-100 and 117. */
  datatype Post = Post(
    id: string, category: Category, text: Option<string>, textClean: string, impressions: int,
    likes: nat, retweets: nat, replies: nat,
    engagement: nat, engagementRate: real, textLength: nat, wordCount: nat,
    hashtagsCount: nat, mentionsCount: nat, sentimentScore: int)

  function Is(c: char): char -> bool { x => x == c }

  /** `0 if pd.isna(x) else x.count(c)`: 0 for a missing text, otherwise at most the length,
      and 0 exactly when c does not occur. */
  function CountChar(text: Option<string>, c: char): (n: nat)
    ensures text.None? ==> n == 0
    ensures text.Some? ==> n <= |text.value| && (n == 0 <==> c !in text.value)
  {
    match text
    case None => 0
    case Some(s) =>
      CountIfExtremes(s, Is(c));
      CountIf(s, Is(c))
  }

  /** Line 94: engagement divided by impressions, as a float division. */
  function Rate(engagement: nat, impressions: int): real
    requires impressions > 0
  {
    engagement as real / impressions as real
  }

  /** Lines 93-100 on one row, with the sentiment score that line 117 adds. The engagement is the
      sum of the interactions and the rate a non-negative share that gives it back when multiplied
      by the impressions; there are no more words than characters; a missing text counts no `#`
      and no `@`. */
  function Derive(row: CleanPost, sentiment: int): (post: Post)
    requires row.impressions > 0
    ensures post.engagement == row.likes + row.retweets + row.replies
    ensures post.engagementRate >= 0.0 && post.engagementRate * row.impressions as real == post.engagement as real
    ensures post.wordCount <= post.textLength == |row.textClean|
    ensures row.text.None? ==> post.hashtagsCount == 0 && post.mentionsCount == 0
  {
    var engagement := row.likes + row.retweets + row.replies;
    RateTimesImpressions(engagement, row.impressions);
    Post(row.id, row.category, row.text, row.textClean, row.impressions,
         row.likes, row.retweets, row.replies,
         engagement, Rate(engagement, row.impressions),
         |row.textClean|, WordCount(row.textClean),
         CountChar(row.text, '#'), CountChar(row.text, '@'), sentiment)
  }

  /** The hashtag count is exactly the number of characters the `#` removal of clean_text drops. */
  lemma HashtagsAreRemovedHashes(s: string)
    ensures CountChar(Some(s), '#') == |s| - |RemoveHashes(s)|
  {
    FilterCount(s, NotHash);
    CountIfComplement(s, Is('#'), NotHash);
  }

  function HasCleanText(row: CleanPost): bool { row.textClean != [] }

  function HasNoCleanText(row: CleanPost): bool { row.textClean == [] }

  /** Line 90: the rows whose cleaned text is not empty, in their original order. */
  function DropEmptyText(rows: seq<CleanPost>): (kept: seq<CleanPost>)
    ensures |kept| <= |rows|
    ensures forall i :: 0 <= i < |kept| ==> kept[i].textClean != []
  {
    Filter(rows, HasCleanText)
  }

  /** The filter keeps exactly the rows with a non-empty cleaned text. */
  lemma DropEmptyTextKeepsExactly(rows: seq<CleanPost>, row: CleanPost)
    ensures row in DropEmptyText(rows) <==> row in rows && row.textClean != []
  {
    FilterMembers(rows, HasCleanText, row);
  }

  /** The filter removes exactly as many rows as have an empty cleaned text. */
  lemma DropEmptyTextCount(rows: seq<CleanPost>)
    ensures |DropEmptyText(rows)| == |rows| - CountIf(rows, HasNoCleanText) <= |rows|
  {
    FilterCount(rows, HasCleanText);
    CountIfComplement(rows, HasCleanText, HasNoCleanText);
  }

  /** The kept rows keep their relative order. */
  lemma DropEmptyTextKeepsOrder(a: seq<CleanPost>, b: seq<CleanPost>)
    ensures DropEmptyText(a + b) == DropEmptyText(a) + DropEmptyText(b)
  {
    FilterAppend(a, b, HasCleanText);
  }

  /** A table where every row has text drops nothing; one where none has drops everything. */
  lemma DropEmptyTextExtremes(rows: seq<CleanPost>)
    ensures (forall i :: 0 <= i < |rows| ==> rows[i].textClean != []) ==> DropEmptyText(rows) == rows
    ensures (forall i :: 0 <= i < |rows| ==> rows[i].textClean == []) ==> DropEmptyText(rows) == []
  {
    if forall i :: 0 <= i < |rows| ==> rows[i].textClean != [] {
      FilterAll(rows, HasCleanText);
    }
    if forall i :: 0 <= i < |rows| ==> rows[i].textClean == [] {
      FilterNone(rows, HasCleanText);
    }
  }

  function ImpressionsColumn(raws: seq<RawPost>): seq<Option<int>>
  {
    seq(|raws|, i requires 0 <= i < |raws| => raws[i].impressions)
  }

  function CategoryColumn(raws: seq<RawPost>): seq<Category>
  {
    seq(|raws|, i requires 0 <= i < |raws| => raws[i].category)
  }

  /** Every present impression value is positive, as the generator's floor of 50 makes it. */
  predicate PositiveImpressions(raws: seq<RawPost>)
  {
    forall i :: 0 <= i < |raws| && raws[i].impressions.Some? ==> raws[i].impressions.value > 0
  }

  /** The table after line 82 (cleaned text) and lines 84-87 (imputed impressions). */
  function CleanAndImpute(raws: seq<RawPost>, imputed: seq<Option<int>>): seq<CleanPost>
    requires |imputed| == |raws| && forall i :: 0 <= i < |imputed| ==> imputed[i].Some?
  {
    seq(|raws|, i requires 0 <= i < |raws| =>
      var r := raws[i];
      CleanPost(r.id, r.category, r.text, CleanText(r.text), imputed[i].value,
                r.likes, r.retweets, r.replies))
  }

  function HasPositiveImpressions(row: CleanPost): bool { row.impressions > 0 }

  /** Lines 93-117 on every row. */
  function DeriveAll(rows: seq<CleanPost>): seq<Post>
    requires forall i :: 0 <= i < |rows| ==> rows[i].impressions > 0
  {
    seq(|rows|, i requires 0 <= i < |rows| => Derive(rows[i], SentimentScore(rows[i].textClean)))
  }

  /** The row counts of lines 89 and 91 and the final table. */
  datatype Prepared = Prepared(before: nat, after: nat, posts: seq<Post>)

  /** Lines 82-117: `None` where line 84 raises, which happens exactly when no impression value is
      present. Otherwise `before` counts the input rows and `after` the rows of the final table,
      which are no more. */
  function Prepare(raws: seq<RawPost>): (r: Option<Prepared>)
    requires PositiveImpressions(raws)
    ensures r.None? <==> forall i :: 0 <= i < |raws| ==> raws[i].impressions.None?
    ensures r.Some? ==> r.value.before == |raws| && |r.value.posts| == r.value.after <= r.value.before
  {
    var vals, cats := ImpressionsColumn(raws), CategoryColumn(raws);
    assert forall i :: 0 <= i < |raws| ==> vals[i] == raws[i].impressions;
    match Imputed(vals, cats)
    case None => None
    case Some(imputed) =>
      ImputedAtLeast(vals, cats, 1);
      var rows := CleanAndImpute(raws, imputed);
      Some(Prepared(|rows|, |DropEmptyText(rows)|, PostsOf(raws, imputed)))
  }

  /** Lines 89-117 once the impressions column is filled: the rows with cleaned text, with their
      derived columns. */
  function PostsOf(raws: seq<RawPost>, imputed: seq<Option<int>>): seq<Post>
    requires |imputed| == |raws| && forall i :: 0 <= i < |imputed| ==> imputed[i].Some? && imputed[i].value > 0
  {
    var rows := CleanAndImpute(raws, imputed);
    FilterPreserves(rows, HasCleanText, HasPositiveImpressions);
    DeriveAll(DropEmptyText(rows))
  }

  /** Lines 82-117 as the script runs them: the impressions column is filled in place. */
  method RunPipeline(raws: seq<RawPost>) returns (result: Option<Prepared>)
    requires PositiveImpressions(raws)
    ensures result == Prepare(raws)
  {
    var vals, cats := ImpressionsColumn(raws), CategoryColumn(raws);
    var imps := new Option<int>[|raws|](i requires 0 <= i < |raws| => raws[i].impressions);
    assert imps[..] == vals;
    var ok := FillImpressions(imps, cats);
    if !ok {
      return None;
    }
    ImputedAtLeast(vals, cats, 1);
    var rows := CleanAndImpute(raws, imps[..]);
    result := Some(Prepared(|rows|, |DropEmptyText(rows)|, PostsOf(raws, imps[..])));
  }

  function RawHasNoCleanText(raw: RawPost): bool { CleanText(raw.text) == [] }

  /** `after` is the number of input rows whose cleaned text is not empty. */
  lemma {:induction false} PrepareCounts(raws: seq<RawPost>)
    requires PositiveImpressions(raws) && Prepare(raws).Some?
    ensures Prepare(raws).value.after == |raws| - CountIf(raws, RawHasNoCleanText)
  {
    var vals, cats := ImpressionsColumn(raws), CategoryColumn(raws);
    var imputed := Imputed(vals, cats).value;
    ImputedAtLeast(vals, cats, 1);
    var rows := CleanAndImpute(raws, imputed);
    assert Prepare(raws).value.after == |DropEmptyText(rows)|;
    DropEmptyTextCount(rows);
    CountIfPointwise(rows, raws, HasNoCleanText, RawHasNoCleanText);
  }

  /** The rate is a non-negative share: multiplied back by the impressions it gives the engagement. */
  lemma RateTimesImpressions(engagement: nat, impressions: int)
    requires impressions > 0
    ensures Rate(engagement, impressions) >= 0.0
    ensures Rate(engagement, impressions) * impressions as real == engagement as real
  {
  }

  /** The derived columns of a row that the filter of line 90 keeps. Its text is present, since a
      missing text cleans to "", so the `pd.isna` branches of lines 97-100 are never taken. The
      word count is one more than the number of spaces of the cleaned text, the hashtag count is
      the number of `#` that cleaning removes, and the sentiment stays within -9 and 9. */
  lemma DerivedColumns(row: CleanPost)
    requires row.impressions > 0 && row.textClean == CleanText(row.text) && row.textClean != []
    ensures var post := Derive(row, SentimentScore(row.textClean));
      row.text.Some? &&
      post.wordCount == CountIf(row.textClean, IsSpace) + 1 &&
      post.hashtagsCount == CountIf(row.text.value, Is('#')) ==
        |row.text.value| - |RemoveHashes(row.text.value)| &&
      post.mentionsCount == CountIf(row.text.value, Is('@')) &&
      -|NegativeWords| <= post.sentimentScore <= |PositiveWords| - 1
  {
    WordCountOfNormalized(row.textClean);
    CleanTextSentimentBounds(row.text);
    HashtagsAreRemovedHashes(row.text.value);
  }

  /** Every post of the final table comes from an input row with the same identifier, category,
      text and interactions, keeps its impressions when they were present, and has a non-empty
      cleaned text, positive impressions and the derived columns above. */
  lemma PreparedPosts(raws: seq<RawPost>, k: nat)
    requires PositiveImpressions(raws) && Prepare(raws).Some?
    requires k < |Prepare(raws).value.posts|
    ensures var post := Prepare(raws).value.posts[k];
      post.impressions > 0 && post.textClean != [] && post.text.Some? &&
      post.sentimentScore == SentimentScore(post.textClean) &&
      post == Derive(CleanPost(post.id, post.category, post.text, post.textClean, post.impressions,
                               post.likes, post.retweets, post.replies), post.sentimentScore) &&
      exists i :: 0 <= i < |raws| &&
        raws[i].id == post.id && raws[i].category == post.category && raws[i].text == post.text &&
        post.textClean == CleanText(raws[i].text) &&
        raws[i].likes == post.likes && raws[i].retweets == post.retweets &&
        raws[i].replies == post.replies &&
        (raws[i].impressions.Some? ==> raws[i].impressions.value == post.impressions)
  {
    var imputed := Imputed(ImpressionsColumn(raws), CategoryColumn(raws)).value;
    ImputedColumn(raws);
    assert Prepare(raws).value.posts == PostsOf(raws, imputed);
    KeptPost(raws, imputed, k);
  }

  /** The filled impressions column: positive everywhere, and equal to the input where a value
      was present. */
  lemma ImputedColumn(raws: seq<RawPost>)
    requires PositiveImpressions(raws)
    requires Imputed(ImpressionsColumn(raws), CategoryColumn(raws)).Some?
    ensures var imputed := Imputed(ImpressionsColumn(raws), CategoryColumn(raws)).value;
      |imputed| == |raws| &&
      (forall i :: 0 <= i < |imputed| ==> imputed[i].Some? && imputed[i].value > 0) &&
      (forall i :: 0 <= i < |raws| && raws[i].impressions.Some? ==> imputed[i] == raws[i].impressions)
  {
    var vals, cats := ImpressionsColumn(raws), CategoryColumn(raws);
    var imputed := Imputed(vals, cats).value;
    ImputedAtLeast(vals, cats, 1);
    forall i | 0 <= i < |raws| && raws[i].impressions.Some?
      ensures imputed[i] == raws[i].impressions
    {
      ImputedValues(vals, cats, i);
    }
  }

  /** Post k of the table built from the input rows and a filled impressions column that keeps
      the present values. */
  lemma KeptPost(raws: seq<RawPost>, imputed: seq<Option<int>>, k: nat)
    requires |imputed| == |raws|
    requires forall i :: 0 <= i < |imputed| ==> imputed[i].Some? && imputed[i].value > 0
    requires forall i :: 0 <= i < |raws| && raws[i].impressions.Some? ==> imputed[i] == raws[i].impressions
    requires k < |PostsOf(raws, imputed)|
    ensures var post := PostsOf(raws, imputed)[k];
      post.impressions > 0 && post.textClean != [] && post.text.Some? &&
      post.sentimentScore == SentimentScore(post.textClean) &&
      post == Derive(CleanPost(post.id, post.category, post.text, post.textClean, post.impressions,
                               post.likes, post.retweets, post.replies), post.sentimentScore) &&
      exists i :: 0 <= i < |raws| &&
        raws[i].id == post.id && raws[i].category == post.category && raws[i].text == post.text &&
        post.textClean == CleanText(raws[i].text) &&
        raws[i].likes == post.likes && raws[i].retweets == post.retweets &&
        raws[i].replies == post.replies &&
        (raws[i].impressions.Some? ==> raws[i].impressions.value == post.impressions)
  {
    var rows := CleanAndImpute(raws, imputed);
    var kept := DropEmptyText(rows);
    var row := kept[k];
    assert row in kept;
    var i := KeptRowOrigin(raws, imputed, row);
    var post := PostsOf(raws, imputed)[k];
    assert post == Derive(row, SentimentScore(row.textClean));
    assert row == CleanPost(post.id, post.category, post.text, post.textClean, post.impressions,
                            post.likes, post.retweets, post.replies);
  }

  /** No row that the filter of line 90 keeps has a missing text. */
  lemma KeptRowsHaveText(raws: seq<RawPost>, imputed: seq<Option<int>>, row: CleanPost)
    requires |imputed| == |raws| && forall j :: 0 <= j < |imputed| ==> imputed[j].Some?
    requires row in DropEmptyText(CleanAndImpute(raws, imputed))
    ensures row.text.Some?
  {
    var i := KeptRowOrigin(raws, imputed, row);
  }

  /** A kept row is the cleaned and imputed form of one input row. */
  lemma KeptRowOrigin(raws: seq<RawPost>, imputed: seq<Option<int>>, row: CleanPost) returns (i: nat)
    requires |imputed| == |raws| && forall j :: 0 <= j < |imputed| ==> imputed[j].Some?
    requires row in DropEmptyText(CleanAndImpute(raws, imputed))
    ensures row.textClean != []
    ensures i < |raws| && row.id == raws[i].id && row.category == raws[i].category &&
      row.text == raws[i].text && row.textClean == CleanText(raws[i].text) &&
      row.impressions == imputed[i].value && row.likes == raws[i].likes &&
      row.retweets == raws[i].retweets && row.replies == raws[i].replies
  {
    var rows := CleanAndImpute(raws, imputed);
    FilterMembers(rows, HasCleanText, row);
    DropEmptyTextKeepsExactly(rows, row);
    i :| 0 <= i < |rows| && rows[i] == row;
  }
}
