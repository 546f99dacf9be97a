/** The lexicon sentiment score of crawl.py (`simple_sentiment`): lexicon words are found by
    substring containment in the lower-cased text, not by matching whole words. */
module Sentiment {
  import opened Seqs
  import opened TextClean
  import opened Wrappers

  /** The positive lexicon; the red-heart emoji is U+2764 followed by the variation selector U+FE0F. */
  const PositiveWords: seq<string> :=
    ["top", "best", "works", "insane", "love", "\U{2764}\U{FE0F}", "good", "great", "tips", "hidden"]

  const NegativeWords: seq<string> :=
    ["bad", "worse", "worst", "hate", "problem", "issue", "slow", "delay", "complaint"]

  const Heart: string := "\U{2764}\U{FE0F}"

  /** Both lexicons are Python sets: no word is listed twice, so counting the listed words that
      occur counts the set's members that occur. */
  lemma LexiconsHaveNoDuplicates()
    ensures |PositiveWords| == 10 && |NegativeWords| == 9
    ensures forall i, j :: 0 <= i < j < |PositiveWords| ==> PositiveWords[i] != PositiveWords[j]
    ensures forall i, j :: 0 <= i < j < |NegativeWords| ==> NegativeWords[i] != NegativeWords[j]
  {
    forall i, j | 0 <= i < j < |PositiveWords| ensures PositiveWords[i] != PositiveWords[j] {
      assert |PositiveWords[i]| != |PositiveWords[j]| || PositiveWords[i][0] != PositiveWords[j][0];
    }
    forall i, j | 0 <= i < j < |NegativeWords| ensures NegativeWords[i] != NegativeWords[j] {
      assert |NegativeWords[i]| != |NegativeWords[j]| || NegativeWords[i][0] != NegativeWords[j][0]
        || NegativeWords[i][4] != NegativeWords[j][4];
    }
  }

  predicate StartsWith(t: string, w: string)
  {
    |w| <= |t| && t[..|w|] == w
  }

  /** Python's `w in t` on strings. */
  predicate Contains(t: string, w: string)
    decreases |t|
  {
    StartsWith(t, w) || (t != [] && Contains(t[1..], w))
  }

  /** w occurs in t at position i. */
  predicate OccursAt(t: string, w: string, i: int)
  {
    0 <= i && i + |w| <= |t| && t[i..i + |w|] == w
  }

  /** Contains finds w exactly when w occurs at some position of t. */
  lemma {:induction false} ContainsAt(t: string, w: string)
    ensures Contains(t, w) <==> exists i :: OccursAt(t, w, i)
    decreases |t|
  {
    if t != [] {
      ContainsAt(t[1..], w);
      if StartsWith(t, w) {
        assert OccursAt(t, w, 0);
      } else if Contains(t[1..], w) {
        var i :| OccursAt(t[1..], w, i);
        assert t[1..][i..i + |w|] == t[i + 1..i + 1 + |w|];
        assert OccursAt(t, w, i + 1);
      }
      if exists i :: OccursAt(t, w, i) {
        var i :| OccursAt(t, w, i);
        if i > 0 {
          assert t[1..][i - 1..i - 1 + |w|] == t[i..i + |w|];
          assert OccursAt(t[1..], w, i - 1);
        }
      }
    } else if w == [] {
      assert OccursAt(t, w, 0);
    }
  }

  /** The lexicon words found in t. */
  function FoundIn(t: string): string -> bool
  {
    w => Contains(t, w)
  }

  /** `simple_sentiment`: 0 for empty text, otherwise the number of positive words found in the
      lower-cased text minus the number of negative words found. */
  function SentimentScore(text: string): (score: int)
    ensures text == [] ==> score == 0
    ensures -|NegativeWords| <= score <= |PositiveWords|
  {
    if text == [] then 0
    else
      var t := Lower(text);
      CountIf(PositiveWords, FoundIn(t)) - CountIf(NegativeWords, FoundIn(t))
  }

  /** The score reaches its top exactly when every positive word and no negative word is found,
      and its bottom exactly when every negative word and no positive word is found. */
  lemma SentimentExtremes(text: string)
    requires text != []
    ensures var t := Lower(text);
      SentimentScore(text) == |PositiveWords| <==>
        (forall i :: 0 <= i < |PositiveWords| ==> Contains(t, PositiveWords[i])) &&
        (forall i :: 0 <= i < |NegativeWords| ==> !Contains(t, NegativeWords[i]))
    ensures var t := Lower(text);
      SentimentScore(text) == -|NegativeWords| <==>
        (forall i :: 0 <= i < |PositiveWords| ==> !Contains(t, PositiveWords[i])) &&
        (forall i :: 0 <= i < |NegativeWords| ==> Contains(t, NegativeWords[i]))
  {
    var t := Lower(text);
    CountIfExtremes(PositiveWords, FoundIn(t));
    CountIfExtremes(NegativeWords, FoundIn(t));
  }

  /** The score does not depend on the case of ASCII letters. */
  lemma SentimentIgnoresCase(text: string)
    ensures SentimentScore(Lower(text)) == SentimentScore(text)
  {
    LowerOfLower(Lower(text));
  }

  /** Text without non-ASCII characters never contains the heart emoji. */
  lemma {:induction false} HeartNeverFound(t: string)
    requires forall i :: 0 <= i < |t| ==> IsAscii(t[i])
    ensures !Contains(t, Heart)
    decreases |t|
  {
    if t != [] {
      assert !StartsWith(t, Heart) by {
        if |Heart| <= |t| {
          assert t[..|Heart|][0] == t[0];
        }
      }
      HeartNeverFound(t[1..]);
    }
  }

  /** In text without non-ASCII characters at most nine positive words can be found. */
  lemma AsciiPositiveCount(t: string)
    requires forall i :: 0 <= i < |t| ==> IsAscii(t[i])
    ensures CountIf(PositiveWords, FoundIn(t)) <= |PositiveWords| - 1
  {
    HeartNeverFound(t);
    var before, after := PositiveWords[..5], PositiveWords[6..];
    assert PositiveWords == before + ([Heart] + after);
    CountIfAppend(before, [Heart] + after, FoundIn(t));
    CountIfAppend([Heart], after, FoundIn(t));
  }

  /** On cleaned text the heart entry can never match, so the score of a cleaned text stays
      between -9 and 9. */
  lemma CleanTextSentimentBounds(text: Option<string>)
    ensures -|NegativeWords| <= SentimentScore(CleanText(text)) <= |PositiveWords| - 1
  {
    var c := CleanText(text);
    if c != [] {
      AsciiPositiveCount(Lower(c));
    }
  }

  /** A word found in t is still found once t is embedded in longer text: a lexicon word inside
      a longer token counts. */
  lemma FoundInContext(a: string, t: string, b: string, w: string)
    requires Contains(t, w)
    ensures Contains(a + t + b, w)
  {
    ContainsAt(t, w);
    ContainsAt(a + t + b, w);
    var i :| OccursAt(t, w, i);
    assert (a + t + b)[|a| + i..|a| + i + |w|] == t[i..i + |w|];
    assert OccursAt(a + t + b, w, |a| + i);
  }

  /** Embedding text in longer text never loses a lexicon match. */
  lemma LexiconCountInContext(a: string, t: string, b: string, words: seq<string>)
    ensures CountIf(words, FoundIn(t)) <= CountIf(words, FoundIn(a + t + b))
  {
    forall w | FoundIn(t)(w) ensures FoundIn(a + t + b)(w) {
      FoundInContext(a, t, b, w);
    }
    CountIfMonotone(words, FoundIn(t), FoundIn(a + t + b));
  }
}
