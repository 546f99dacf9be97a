# Social-media post analysis core, modelled in Dafny

`crawl.py` generates a table of social-media posts and then runs a small analysis over it.

1. It cleans each post's text: it removes URLs, `@mentions` and `#`, replaces non-ASCII runs by a space, collapses whitespace, trims and lower-cases.
2. It fills in missing impression counts with the `int` median of the post's category, or with the overall median.
3. It drops the posts whose cleaned text is empty.
4. It adds the derived columns:
   - engagement and engagement rate
   - text length and word count
   - hashtag and mention counts
   - a lexicon sentiment score
5. It builds two tables:
   - a per-category summary sorted by average engagement rate
   - the three best posts of every category

This project models that core, from line 70 to line 133 of `crawl.py`.

Modules, one per stage:

- `Wrappers`: `Option`, which stands for pandas' missing value.
- `Seqs`: counting, filtering, summing and a stable insertion sort over sequences.
- `TextClean`: `clean_text`, one regular-expression substitution at a time.
- `Sentiment`: the two lexicons and `simple_sentiment`.
- `Stats`: pandas `mean` and `median` over exact reals, and the truncating `int()` of a median.
- `Impute`: the median imputation of the impressions column.
  - As a function on columns (`Imputed`).
  - As an in-place `fillna` on an array (`FillImpressions`, `FillNa`), proved to compute `Imputed`.
- `Posts`: the post table, the empty-text filter, the derived columns, and the whole preparation from the raw rows (`Prepare`, `RunPipeline`).
- `Aggregate`: `groupby('category')` with its aggregates, the sort by average rate, and `sort_values(...).groupby(...).head(3)`.

## Model

| member | source | states |
|---|---|---|
| TextClean.StripUrls | crawl.py:74 | Removing `http` and the non-space run after it only deletes characters and keeps the text's start. |
| TextClean.StripUrlsLeavesNoUrl | crawl.py:74 | After the URL substitution no `http` followed by a non-space character is left. |
| TextClean.StripUrlsNoUrlAtHead | crawl.py:74 | The output of the URL substitution never starts with a match: a deletion resumes at whitespace or at the end. |
| TextClean.StripUrlsIdempotent | crawl.py:74 | Applying the URL substitution twice gives the same text as applying it once. |
| TextClean.StripMentions | crawl.py:75 | Removing `@` and the word-character run after it only deletes characters. |
| TextClean.StripMentionsLeavesNoMention | crawl.py:75 | After the mention substitution no `@` followed by a word character is left. |
| TextClean.StripMentionsIdempotent | crawl.py:75 | Applying the mention substitution twice gives the same text as applying it once. |
| TextClean.RemoveHashes | crawl.py:76 | The result has no `#`, and every other character is present exactly when it was present before. |
| TextClean.ReplaceNonAscii | crawl.py:77 | Every character of the result is ASCII, and each is a space or a character of the input. |
| TextClean.ReplaceNonAsciiKeepsAscii | crawl.py:77 | The non-space characters of the result are exactly the ASCII non-space characters of the input, in order. |
| TextClean.CollapseSpaces | crawl.py:78 | The result is empty only for empty input. Each run of whitespace becomes a single space, so no two whitespace characters are adjacent, and a leading space stays leading. |
| TextClean.CollapseSpacesKeepsWords | crawl.py:78 | Collapsing whitespace keeps the non-space characters and their order. |
| TextClean.Strip | crawl.py:78 | `strip()` returns a contiguous slice starting after the leading whitespace. That slice neither starts nor ends with whitespace. |
| TextClean.StripKeepsWords | crawl.py:78 | Stripping keeps the non-space characters and their order. |
| TextClean.Lower | crawl.py:79 | Lower-casing keeps the length, maps each character on its own, and leaves no upper-case ASCII letter. |
| TextClean.LowerOfLower | crawl.py:79 | Lower-casing lower-cased text changes nothing. |
| TextClean.CleanText | crawl.py:70-79 | A missing text gives `""`. The result has no `#`, only ASCII characters and no upper-case letter. It has single spaces and no leading or trailing space. |
| TextClean.CleanTextKeepsWords | crawl.py:73-79 | The non-space characters of the result are those of the input with URLs, mentions, `#` and non-ASCII characters removed, lower-cased and in their order. |
| TextClean.CleanTextOfPlain | crawl.py:73-79 | Text that is already ASCII and normalised and has no URL, mention or `#` is only lower-cased. |
| TextClean.CleanTextIdempotentWithoutMarkup | crawl.py:70-79 | Cleaning cleaned text changes nothing, provided the cleaned text has no `http` URL or mention left. |
| TextClean.CleanTextKeepsUpperCaseUrl | crawl.py:74-79 | `HTTP://x` is cleaned to `http://x`. The URL pattern is case-sensitive but runs before lower-casing, so cleaning twice can differ from cleaning once. |
| TextClean.CleanTextRemovesLowerCaseUrl | crawl.py:74 | `http://x` is cleaned to the empty string. |
| TextClean.StripUrlsAppend | crawl.py:74 | A match of `http\S+` never crosses whitespace: cutting the text before a whitespace character, the substitution of the whole is the substitutions of the two parts, concatenated. |
| TextClean.StripUrlsSpaceCons | crawl.py:74 | A whitespace character is copied to the output in place. |
| TextClean.StripUrlsOfPiece | crawl.py:74 | A whitespace-free piece is cut at its first match of `http\S+`: what precedes the match stays, the rest of the piece goes. |
| TextClean.StripUrlsOfWholeUrl | crawl.py:74 | A whitespace-free piece that starts with `http` followed by a character is deleted entirely. |
| TextClean.StripUrlsDropsUrl | crawl.py:74 | A URL between a space and whitespace (or the end) is deleted, and the space before it and the text on both sides stay where they were. |
| TextClean.StripMentionsAppend | crawl.py:75 | A match of `@\w+` never crosses a non-word character: cutting the text before one, the substitution of the whole is the substitutions of the two parts, concatenated. |
| TextClean.StripMentionsOfMention | crawl.py:75 | A piece that is `@` followed by word characters is deleted entirely. |
| TextClean.StripMentionsOfWord | crawl.py:75 | A piece that is not a mention is kept as it is. |
| TextClean.StripMentionsDropsMention | crawl.py:75 | A mention followed by a non-word character (or the end) is deleted, and the text on both sides stays where it was. |
| TextClean.RemoveHashesDropsHash | crawl.py:76 | Each `#` is dropped in place: the text on its two sides is kept, concatenated. |
| TextClean.RemoveHashesIdentity | crawl.py:76 | Text without `#` is unchanged. |
| TextClean.ReplaceNonAsciiAppend | crawl.py:77 | Cutting the text anywhere except inside a run of non-ASCII characters, the substitution of the whole is the substitutions of the two parts, concatenated. |
| TextClean.ReplaceNonAsciiOfRun | crawl.py:77 | A whole run of non-ASCII characters becomes exactly one space. |
| TextClean.CollapseSpacesAppend | crawl.py:78 | Cutting the text anywhere except inside a run of whitespace, collapsing the whole is collapsing the two parts, concatenated. |
| TextClean.CollapseSpacesOfRun | crawl.py:78 | A whole run of whitespace becomes exactly one space. |
| TextClean.CollapseSpacesJoinsPieces | crawl.py:78 | A run of whitespace between two words becomes one space in the same place. |
| TextClean.CleanTextOfSamplePost | crawl.py:70-79 | `"Check this http://x.co @joe #great #great"` is cleaned to `"check this great great"`. |
| TextClean.WordCount | crawl.py:96 | `len(x.split())` is 0 exactly when the text is only whitespace, and is at most the length. |
| TextClean.WordCountOfNormalized | crawl.py:96 | On cleaned text the word count is the number of spaces plus one, and 0 for the empty text. |
| Sentiment.LexiconsHaveNoDuplicates | crawl.py:102-105 | The positive set has 10 distinct words and the negative set 9, so counting listed words counts set members. |
| Sentiment.SentimentScore | crawl.py:108-114 | The score of empty text is 0. Every score lies between -9 and 10. |
| Sentiment.SentimentExtremes | crawl.py:111-114 | The score is 10 exactly when every positive word and no negative word is found. It is -9 exactly when every negative word and no positive word is found. |
| Sentiment.SentimentIgnoresCase | crawl.py:111 | The score does not depend on the case of ASCII letters. |
| Sentiment.HeartNeverFound | crawl.py:102-103 | ASCII-only text never contains the red-heart emoji. |
| Sentiment.CleanTextSentimentBounds | crawl.py:108-117 | The score of a cleaned text lies between -9 and 9: the emoji entry can never match after line 77. |
| Sentiment.ContainsAt | crawl.py:112-113 | Python's `w in t` holds exactly when `w` occurs at some position of `t`. |
| Sentiment.FoundInContext | crawl.py:112-113 | Matching is substring containment: a word found in a text is found in any text that contains it. |
| Sentiment.LexiconCountInContext | crawl.py:112-113 | Embedding a text in longer text never lowers the number of lexicon words found in it. |
| Stats.Ascending | crawl.py:124-127 | The sorted values are a permutation of the input, in ascending order. |
| Stats.MedianSplitsInHalves | crawl.py:124-127 | At least half the values are at most the median, and at least half are at least the median. |
| Stats.MedianBetween | crawl.py:124-127 | The median lies between two of the values. |
| Stats.MedianWithin | crawl.py:124-127 | The median lies within any bounds that hold for every value. |
| Stats.MedianIgnoresOrder | crawl.py:124-127 | The median does not depend on the order of the values. |
| Stats.Truncate | crawl.py:84-86 | `int()` of a float rounds toward zero. |
| Stats.IntMedianSplitsInHalves | crawl.py:84-86 | Truncation keeps the halving property of the median. |
| Stats.IntMedianBetween | crawl.py:84-86 | `int(median)` lies between two of the values. |
| Stats.IntMedianWithin | crawl.py:84-86 | `int(median)` lies within any integer bounds that hold for every value. |
| Stats.IntMedianIgnoresOrder | crawl.py:84-86 | `int(median)` does not depend on the order of the values. |
| Stats.IntMedianOfAscending | crawl.py:84-86 | On ascending values, `int(median)` is the middle value, or the truncated mean of the two middle values. |
| Stats.IntMedianTruncates | crawl.py:84-86 | The median 150.5 of 100 and 201 becomes 150. |
| Stats.MeanWithin | crawl.py:123-129 | The mean lies within any bounds that hold for every value. |
| Impute.PresentMembers | crawl.py:84 | A value is among those the median sees exactly when some row holds it. |
| Impute.OverallMedian | crawl.py:84 | The overall median is missing, so that `int(NaN)` raises, exactly when every impression value is missing. |
| Impute.Imputed | crawl.py:84-87 | Imputation fails exactly when every impression value is missing. Otherwise it keeps the length, leaves no value missing and keeps every present value. |
| Impute.ImputedValues | crawl.py:84-87 | Afterwards nothing is missing and present values are unchanged. A missing value becomes the `int` median of its category's present values when some row of its category has a value. It becomes the overall `int` median exactly when no row of its category has one. |
| Impute.SecondFillIsNoOp | crawl.py:85-87 | The second `fillna` of line 87 changes nothing. |
| Impute.GroupValuesArePresent | crawl.py:85-86 | Every value of a category's group is a value of the column. |
| Impute.ImputedBetweenPresent | crawl.py:84-87 | Every value after imputation lies between two present values of the column. |
| Impute.ImputedAtLeast | crawl.py:84-87 | A lower bound that holds for every present value holds for every imputed value. |
| Impute.FillNa | crawl.py:85-87 | An in-place `fillna` with one fill value per row leaves the array equal to the filled column. |
| Impute.FillImpressions | crawl.py:84-87 | In place, `ok` holds exactly when imputation succeeds, and then the array is the imputed column. Otherwise the array is unchanged. |
| Posts.RankFollowsNames | crawl.py:18-19 | The category ranks order the categories exactly as Python compares their names, and no two categories share a rank. |
| Posts.CountChar | crawl.py:97-100 | The count is 0 for a missing text. Otherwise it is at most the length, and 0 exactly when the character does not occur. |
| Posts.Derive | crawl.py:93-100 | Engagement is the sum of the interactions. The rate is non-negative and times the impressions gives back the engagement. There are no more words than characters of the cleaned text. A missing text has no hashtags and no mentions. |
| Posts.HashtagsAreRemovedHashes | crawl.py:97-98 | The hashtag count is exactly the number of characters the `#` removal drops. |
| Posts.DropEmptyText | crawl.py:90 | No more rows are kept than given, and every kept row has a non-empty cleaned text. |
| Posts.DropEmptyTextKeepsExactly | crawl.py:90 | A row is kept exactly when it is a row of the table and its cleaned text is not empty. |
| Posts.DropEmptyTextCount | crawl.py:89-91 | The filter removes exactly the rows with empty cleaned text, so `after <= before`. |
| Posts.DropEmptyTextKeepsOrder | crawl.py:90 | Filtering a concatenation filters each part, so the kept rows keep their order. |
| Posts.DropEmptyTextExtremes | crawl.py:90 | Nothing is dropped when every row has text. Everything is dropped when none has. |
| Posts.Prepare | crawl.py:82-117 | The preparation fails exactly when every impression value is missing. Otherwise `before` is the number of input rows, and the final table has `after` rows, no more than `before`. |
| Posts.RunPipeline | crawl.py:82-117 | Running the steps with the in-place imputation gives the same table as the functional model. |
| Posts.PrepareCounts | crawl.py:89-91 | `after` is the number of input rows whose cleaned text is not empty. |
| Posts.RateTimesImpressions | crawl.py:94 | The rate is non-negative, and multiplied by the impressions it gives back the engagement. |
| Posts.DerivedColumns | crawl.py:93-117 | A row with non-empty cleaned text has a present text, so the `pd.isna` branches are not taken. Its word count is its number of spaces plus one. Its hashtag count is the number of `#` in the text, which is the number of characters the `#` removal drops. Its mention count is the number of `@`. Its sentiment lies in [-9, 9]. |
| Posts.KeptRowsHaveText | crawl.py:90-100 | Every row the filter keeps has a present text. |
| Posts.PreparedPosts | crawl.py:82-117 | Every final post comes from an input row with the same id, category, text and interactions, and keeps present impressions. Its cleaned text is non-empty and its impressions positive. Its derived columns are those of lines 93-117. |
| Posts.ImputedColumn | crawl.py:84-87 | The filled impressions column is positive everywhere when the present values are, and equals the input where a value was present. |
| Aggregate.CategoriesInNameOrder | crawl.py:18-19 | The list of groups holds every category, in strictly ascending name order. |
| Aggregate.CategoryRanks | crawl.py:121 | Each category sits at the position of its rank. |
| Aggregate.Summarize | crawl.py:121-129 | A group's row is labelled with its category, and its post count is the number of posts of that category, at least one. |
| Aggregate.GroupSummaries | crawl.py:121-129 | There is one summary row per category that has posts. |
| Aggregate.CategorySummary | crawl.py:121-130 | The summary rows are a permutation of the per-group rows, sorted by non-increasing average engagement rate. |
| Aggregate.SummaryRows | crawl.py:121-129 | Each summary row holds the aggregates of its own category, whose post count is its number of posts, at least one. |
| Aggregate.SummaryCovers | crawl.py:121 | The summary has a row for a category exactly when some post has that category. |
| Aggregate.PresentCategoriesInOrder | crawl.py:121 | The groups come in name order, each category at most once. |
| Aggregate.GroupSummariesInNameOrder | crawl.py:121-129 | Before the sort the rows follow the category names. |
| Aggregate.SummaryCategoriesDistinct | crawl.py:121-130 | No category has two summary rows. |
| Aggregate.CategoriesOnce | crawl.py:18-19 | Every category occurs exactly once among the groups. |
| Aggregate.CountsOverCategories | crawl.py:121-122 | Over all categories the post counts add up to the number of posts. |
| Aggregate.SummaryCountsAddUp | crawl.py:121-122 | The `posts_count` column adds up to the number of posts. |
| Aggregate.SummaryRateWithin | crawl.py:126-127 | The average and the median engagement rate of a category lie within any bounds that hold for its rates. |
| Aggregate.TopOrderIsTotal | crawl.py:132-133 | The sort key (category ascending, rate descending) orders any two posts. |
| Aggregate.HeadPerGroupCount | crawl.py:133 | `head(n)` keeps n rows of each category, or all of them when it has fewer. |
| Aggregate.HeadPerGroupFirst | crawl.py:133 | The kept rows of a category are its first rows in table order. |
| Aggregate.HeadPerGroupRows | crawl.py:133 | Every kept row is a row of the table. |
| Aggregate.HeadPerGroupSorted | crawl.py:133 | Keeping rows of a sorted table leaves it sorted. |
| Aggregate.HeadPerGroup | crawl.py:133 | `head(n)` keeps no more rows than the table has. |
| Aggregate.TopPosts | crawl.py:132-133 | Every top post is a post of the table, taken no more often than the table holds it. The top posts are ordered by category name, then by falling engagement rate. |
| Aggregate.TopPostsPerCategory | crawl.py:132-133 | Every category contributes three posts, or all its posts when it has fewer. |
| Aggregate.TopPostsDominate | crawl.py:132-133 | A post left out of the top posts has a rate no higher than any top post of its category. |
| Aggregate.HeadPerGroupDominates | crawl.py:133 | In a sorted table, a row kept by `head(n)` comes before every left-out row of its category. |

## Left out

- The data generator (lines 11-67) is not modelled: its random draws, the timestamps, the follower counts and the language column. Its floor of 50 on impressions (line 40) is kept as the assumption that present impressions are positive.
- The `date` column (line 119), the plots and the CSV/display output (lines 135-188) are left out. They are I/O, or use columns the core does not compute with.
- Floating-point arithmetic is modelled as exact reals. This covers the rate division, the means and medians, and `int()` of a median. Rounding error and NaN/inf are not modelled.
- Posts.Prepare requires every present impression value to be positive. The script itself would divide by zero or by a negative number where that fails. The generator rules it out.
- Posts.Rate divides exactly. A pandas division by zero (inf or NaN) is not modelled.
- TextClean.IsWordChar: `\w` is modelled on ASCII letters, digits and `_`. Python's `re` also matches Unicode letters and digits there. Accordingly, `@` followed by a non-ASCII letter is not treated as a mention. `\s` (TextClean.IsSpace) is Python's full set of whitespace characters.
- TextClean.Lower lower-cases ASCII letters only. Python's `str.lower` also maps other letters, but after line 77 only ASCII remains, so `clean_text` is unaffected. `simple_sentiment` is only applied to cleaned text.
- `str(s)` of a non-string cell (line 73) is not modelled: the text column only ever holds strings or `None`.
- Aggregate.CategorySummary: equal average rates may appear in any order. pandas' single-key `sort_values` is not stable. The model sorts stably, and only the non-increasing order and the permutation are stated.
- Aggregate.TopPosts sorts stably, as pandas' multi-key sort does. Which of several equal-rate posts are kept is not stated by any lemma beyond TopPostsDominate.
- The alignment of `groupby(...).apply` back onto the original index (line 85) is modelled as a per-row fill. This is how pandas before 2.0 behaves: `apply` with a function that returns a like-indexed Series gives a result indexed like the input. Newer pandas prepends the group key to the index, and the assignment would then not align. The reindexing itself is not modelled.
- TextClean.StripUrls, TextClean.StripMentions, TextClean.ReplaceNonAscii and TextClean.CollapseSpaces: their own contracts state only what is deleted or kept. Where each output piece goes is stated by the lemmas that split the text into pieces (StripUrlsAppend, StripUrlsOfPiece, StripMentionsAppend, ReplaceNonAsciiAppend, CollapseSpacesAppend and the `Of…` lemmas for single pieces).
- Stats.Median, Stats.IntMedian and Stats.Mean carry no contract of their own. Their properties are the lemmas MedianSplitsInHalves, MedianBetween, MedianWithin, IntMedianBetween, IntMedianWithin and MeanWithin.
