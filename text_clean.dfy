/** The text cleaning of crawl.py (`clean_text`) and the word count taken from its result.
    Each `re.sub` is a left-to-right scan over the characters; a match is always the longest
    one starting at the scan position, and the scan resumes after it. */
module TextClean {
  import opened Wrappers
  import opened Seqs

  /** Whitespace as Python's `str.isspace` sees it; the `\s` class of `re` on text patterns,
      `str.strip()` and `str.split()` use the same set. */
  predicate IsSpace(c: char)
  {
    var n := c as int;
    n == 0x20 || 0x09 <= n <= 0x0D || 0x1C <= n <= 0x1F || n == 0x85 || n == 0xA0 || n == 0x1680 ||
    0x2000 <= n <= 0x200A || n == 0x2028 || n == 0x2029 || n == 0x202F || n == 0x205F || n == 0x3000
  }

  predicate NotSpace(c: char) { !IsSpace(c) }

  /** The class `[\x00-\x7F]`. */
  predicate IsAscii(c: char) { c as int < 0x80 }

  predicate NotAscii(c: char) { !IsAscii(c) }

  predicate AsciiNotSpace(c: char) { IsAscii(c) && !IsSpace(c) }

  /** The class `\w`, restricted to ASCII letters, digits and underscore. */
  predicate IsWordChar(c: char) { 'a' <= c <= 'z' || 'A' <= c <= 'Z' || '0' <= c <= '9' || c == '_' }

  predicate IsUpper(c: char) { 'A' <= c <= 'Z' }

  predicate NotHash(c: char) { c != '#' }

  /** Length of the longest prefix of s whose characters all satisfy p. */
  function RunLength(s: string, p: char -> bool): (n: nat)
    ensures n <= |s|
    ensures forall i :: 0 <= i < n ==> p(s[i])
    ensures n < |s| ==> !p(s[n])
  {
    if s == [] || !p(s[0]) then 0 else 1 + RunLength(s[1..], p)
  }

  // ---------------------------------------------------------------------------
  // Step 1: re.sub(r'http\S+', '', s)
  // ---------------------------------------------------------------------------

  /** A match of `http\S+` starts at the head of s. */
  predicate UrlAt(s: string)
  {
    |s| >= 5 && s[0] == 'h' && s[1] == 't' && s[2] == 't' && s[3] == 'p' && !IsSpace(s[4])
  }

  predicate NoUrl(s: string)
  {
    forall i :: 0 <= i < |s| ==> !UrlAt(s[i..])
  }

  /** Deletes each "http" followed by the rest of its run of non-whitespace characters. */
  function StripUrls(s: string): (r: string)
    ensures |r| <= |s|
    ensures forall i :: 0 <= i < |r| ==> r[i] in s
    decreases |s|
  {
    if s == [] then []
    else if UrlAt(s) then
      var n := RunLength(s, NotSpace);
      assert n >= 5 by {
        assert NotSpace(s[0]) && NotSpace(s[1]) && NotSpace(s[2]) && NotSpace(s[3]) && NotSpace(s[4]);
      }
      StripUrls(s[n..])
    else
      [s[0]] + StripUrls(s[1..])
  }

  /** Text that starts with whitespace keeps that whitespace at its head. */
  lemma StripUrlsAtSpace(s: string)
    requires s != [] && IsSpace(s[0])
    ensures StripUrls(s) != [] && StripUrls(s)[0] == s[0]
  {
  }

  /** After a deletion the output resumes at whitespace or ends, so a whitespace-free
      head of the output was copied unchanged from the head of the input. */
  lemma {:induction false} StripUrlsKeepsHead(s: string, k: nat)
    requires k <= |StripUrls(s)|
    requires forall i :: 0 <= i < k ==> !IsSpace(StripUrls(s)[i])
    ensures k <= |s| && StripUrls(s)[..k] == s[..k]
    decreases |s|
  {
    if k > 0 {
      if UrlAt(s) {
        var t := s[RunLength(s, NotSpace)..];
        StripUrlsAtSpace(t);
        assert false;
      } else {
        var r, rest := StripUrls(s), StripUrls(s[1..]);
        assert r == [s[0]] + rest;
        assert forall i :: 0 <= i < k - 1 ==> rest[i] == r[i + 1];
        StripUrlsKeepsHead(s[1..], k - 1);
        forall i | 0 <= i < k ensures r[i] == s[i] {
          if i > 0 {
            assert rest[..k - 1][i - 1] == s[1..][..k - 1][i - 1];
          }
        }
      }
    }
  }

  /** No match of `http\S+` is left: a second substitution would find nothing. */
  lemma {:induction false} StripUrlsLeavesNoUrl(s: string)
    ensures NoUrl(StripUrls(s))
    decreases |s|
  {
    if s == [] {
    } else if UrlAt(s) {
      StripUrlsLeavesNoUrl(s[RunLength(s, NotSpace)..]);
    } else {
      var rest := StripUrls(s[1..]);
      assert StripUrls(s) == [s[0]] + rest;
      StripUrlsLeavesNoUrl(s[1..]);
      StripUrlsNoUrlAtHead(s);
      NoUrlCons(s[0], rest);
    }
  }

  /** The output never starts with a match: a deletion resumes at whitespace or at the end, and
      any other output starts with the input's own head. */
  lemma StripUrlsNoUrlAtHead(s: string)
    ensures !UrlAt(StripUrls(s))
  {
    if UrlAt(s) {
      DeletionNoUrlAtHead(s);
    } else {
      CopyNoUrlAtHead(s);
    }
  }

  lemma DeletionNoUrlAtHead(s: string)
    requires UrlAt(s)
    ensures !UrlAt(StripUrls(s))
  {
    var t := s[RunLength(s, NotSpace)..];
    assert StripUrls(s) == StripUrls(t);
    if t != [] {
      StripUrlsAtSpace(t);
      assert NotSpace('h');
    }
  }

  lemma CopyNoUrlAtHead(s: string)
    requires !UrlAt(s)
    ensures !UrlAt(StripUrls(s))
  {
    StripUrlsHeadOfFive(s);
    assert NotSpace('h') && NotSpace('t') && NotSpace('p');
  }

  /** When the output's first five characters are not whitespace, they are the input's first five. */
  lemma StripUrlsHeadOfFive(s: string)
    ensures var r := StripUrls(s);
      |r| >= 5 && !IsSpace(r[0]) && !IsSpace(r[1]) && !IsSpace(r[2]) && !IsSpace(r[3]) && !IsSpace(r[4]) ==>
      |s| >= 5 && r[..5] == s[..5]
  {
    var r := StripUrls(s);
    if |r| >= 5 && !IsSpace(r[0]) && !IsSpace(r[1]) && !IsSpace(r[2]) && !IsSpace(r[3]) && !IsSpace(r[4]) {
      assert |s| >= 5 && r[..5] == s[..5] by {
        forall i | 0 <= i < 5 ensures !IsSpace(r[i]) {
          assert i == 0 || i == 1 || i == 2 || i == 3 || i == 4;
        }
        StripUrlsKeepsHead(s, 5);
      }
    }
  }

  /** A character in front of text without a URL match adds none, unless it starts one itself. */
  lemma NoUrlCons(c: char, rest: string)
    requires NoUrl(rest) && !UrlAt([c] + rest)
    ensures NoUrl([c] + rest)
  {
    var r := [c] + rest;
    forall i | 0 <= i < |r| ensures !UrlAt(r[i..]) {
      if i == 0 {
        assert r[0..] == r;
      } else {
        assert r[i..] == rest[i - 1..];
      }
    }
  }

  lemma {:induction false} StripUrlsIdentity(s: string)
    requires NoUrl(s)
    ensures StripUrls(s) == s
    decreases |s|
  {
    if s != [] {
      assert s[0..] == s;
      forall i | 0 <= i < |s[1..]| ensures !UrlAt(s[1..][i..]) {
        assert s[1..][i..] == s[i + 1..];
      }
      StripUrlsIdentity(s[1..]);
    }
  }

  /** The URL substitution is idempotent. */
  lemma StripUrlsIdempotent(s: string)
    ensures StripUrls(StripUrls(s)) == StripUrls(s)
  {
    StripUrlsLeavesNoUrl(s);
    StripUrlsIdentity(StripUrls(s));
  }

  // ---------------------------------------------------------------------------
  // Step 2: re.sub(r'@\w+', '', s)
  // ---------------------------------------------------------------------------

  /** A match of `@\w+` starts at the head of s. */
  predicate MentionAt(s: string)
  {
    |s| >= 2 && s[0] == '@' && IsWordChar(s[1])
  }

  predicate NoMention(s: string)
  {
    forall i :: 0 <= i < |s| ==> !MentionAt(s[i..])
  }

  /** Deletes each '@' followed by its run of word characters. */
  function StripMentions(s: string): (r: string)
    ensures |r| <= |s|
    ensures forall i :: 0 <= i < |r| ==> r[i] in s
    decreases |s|
  {
    if s == [] then []
    else if MentionAt(s) then
      StripMentions(s[1 + RunLength(s[1..], IsWordChar)..])
    else
      [s[0]] + StripMentions(s[1..])
  }

  /** Text that does not start with a word character gives output that does not either. */
  lemma {:induction false} StripMentionsAtNonWord(s: string)
    requires s == [] || !IsWordChar(s[0])
    ensures StripMentions(s) == [] || !IsWordChar(StripMentions(s)[0])
    decreases |s|
  {
    if s != [] && MentionAt(s) {
      var n := RunLength(s[1..], IsWordChar);
      assert 1 + n == |s| || !IsWordChar(s[1 + n]) by {
        if 1 + n < |s| { assert s[1..][n] == s[1 + n]; }
      }
      StripMentionsAtNonWord(s[1 + n..]);
    }
  }

  /** No match of `@\w+` is left: a second substitution would find nothing. */
  lemma {:induction false} StripMentionsLeavesNoMention(s: string)
    ensures NoMention(StripMentions(s))
    decreases |s|
  {
    if s == [] {
    } else if MentionAt(s) {
      StripMentionsLeavesNoMention(s[1 + RunLength(s[1..], IsWordChar)..]);
    } else {
      var r := StripMentions(s);
      var rest := StripMentions(s[1..]);
      assert r == [s[0]] + rest;
      StripMentionsLeavesNoMention(s[1..]);
      if s[0] == '@' {
        StripMentionsAtNonWord(s[1..]);
      }
      forall i | 0 <= i < |r| ensures !MentionAt(r[i..]) {
        if i > 0 {
          assert r[i..] == rest[i - 1..];
        }
      }
    }
  }

  lemma {:induction false} StripMentionsIdentity(s: string)
    requires NoMention(s)
    ensures StripMentions(s) == s
    decreases |s|
  {
    if s != [] {
      assert s[0..] == s;
      forall i | 0 <= i < |s[1..]| ensures !MentionAt(s[1..][i..]) {
        assert s[1..][i..] == s[i + 1..];
      }
      StripMentionsIdentity(s[1..]);
    }
  }

  /** The mention substitution is idempotent. */
  lemma StripMentionsIdempotent(s: string)
    ensures StripMentions(StripMentions(s)) == StripMentions(s)
  {
    StripMentionsLeavesNoMention(s);
    StripMentionsIdentity(StripMentions(s));
  }

  // ---------------------------------------------------------------------------
  // Step 3: re.sub(r'#', '', s)
  // ---------------------------------------------------------------------------

  /** Deletes every '#' and keeps everything else in order. */
  function RemoveHashes(s: string): (r: string)
    ensures '#' !in r
    ensures forall c :: c != '#' ==> (c in r <==> c in s)
  {
    forall c ensures c != '#' ==> (c in Filter(s, NotHash) <==> c in s) {
      FilterMembers(s, NotHash, c);
    }
    Filter(s, NotHash)
  }

  /** Steps 1 to 3: URLs, mentions and hash signs removed. */
  function StripMarkup(s: string): (r: string)
    ensures '#' !in r
  {
    RemoveHashes(StripMentions(StripUrls(s)))
  }

  // ---------------------------------------------------------------------------
  // Step 4: re.sub(r'[^\x00-\x7F]+', ' ', s)
  // ---------------------------------------------------------------------------

  /** Replaces each maximal run of non-ASCII characters by one space. */
  function ReplaceNonAscii(s: string): (r: string)
    ensures forall i :: 0 <= i < |r| ==> IsAscii(r[i])
    ensures forall i :: 0 <= i < |r| ==> r[i] == ' ' || r[i] in s
    decreases |s|
  {
    if s == [] then []
    else if !IsAscii(s[0]) then [' '] + ReplaceNonAscii(s[RunLength(s, NotAscii)..])
    else [s[0]] + ReplaceNonAscii(s[1..])
  }

  /** Apart from the spaces it inserts, the substitution keeps exactly the ASCII characters, in order. */
  lemma {:induction false} ReplaceNonAsciiKeepsAscii(s: string)
    ensures Filter(ReplaceNonAscii(s), NotSpace) == Filter(s, AsciiNotSpace)
    decreases |s|
  {
    if s != [] {
      var r := ReplaceNonAscii(s);
      if !IsAscii(s[0]) {
        var n := RunLength(s, NotAscii);
        var rest := ReplaceNonAscii(s[n..]);
        ReplaceNonAsciiKeepsAscii(s[n..]);
        assert s == s[..n] + s[n..];
        FilterAppend(s[..n], s[n..], AsciiNotSpace);
        FilterNone(s[..n], AsciiNotSpace);
        assert r == [' '] + rest;
        assert r[1..] == rest;
      } else {
        var rest := ReplaceNonAscii(s[1..]);
        ReplaceNonAsciiKeepsAscii(s[1..]);
        assert r == [s[0]] + rest;
        assert r[1..] == rest;
      }
    }
  }

  // ---------------------------------------------------------------------------
  // Step 5: re.sub(r'\s+', ' ', s).strip()
  // ---------------------------------------------------------------------------

  /** No whitespace at either end, never two whitespace characters in a row,
      and every whitespace character is a plain space. */
  predicate Normalized(s: string)
  {
    (s == [] || (!IsSpace(s[0]) && !IsSpace(s[|s| - 1]))) &&
    (forall i :: 0 <= i < |s| - 1 ==> !(IsSpace(s[i]) && IsSpace(s[i + 1]))) &&
    (forall i :: 0 <= i < |s| && IsSpace(s[i]) ==> s[i] == ' ')
  }

  /** Replaces each maximal run of whitespace by one space. */
  function CollapseSpaces(s: string): (r: string)
    ensures |r| == 0 <==> |s| == 0
    ensures r != [] ==> (IsSpace(r[0]) <==> IsSpace(s[0]))
    ensures forall i :: 0 <= i < |r| && IsSpace(r[i]) ==> r[i] == ' '
    ensures forall i :: 0 <= i < |r| - 1 ==> !(IsSpace(r[i]) && IsSpace(r[i + 1]))
    ensures forall i :: 0 <= i < |r| ==> r[i] == ' ' || r[i] in s
    decreases |s|
  {
    if s == [] then []
    else if IsSpace(s[0]) then [' '] + CollapseSpaces(s[RunLength(s, IsSpace)..])
    else [s[0]] + CollapseSpaces(s[1..])
  }

  /** Collapsing changes only whitespace: the other characters stay, in order. */
  lemma {:induction false} CollapseSpacesKeepsWords(s: string)
    ensures Filter(CollapseSpaces(s), NotSpace) == Filter(s, NotSpace)
    decreases |s|
  {
    if s != [] {
      var r := CollapseSpaces(s);
      if IsSpace(s[0]) {
        var n := RunLength(s, IsSpace);
        var rest := CollapseSpaces(s[n..]);
        CollapseSpacesKeepsWords(s[n..]);
        assert s == s[..n] + s[n..];
        FilterAppend(s[..n], s[n..], NotSpace);
        FilterNone(s[..n], NotSpace);
        assert r == [' '] + rest;
        assert r[1..] == rest;
      } else {
        var rest := CollapseSpaces(s[1..]);
        CollapseSpacesKeepsWords(s[1..]);
        assert r == [s[0]] + rest;
        assert r[1..] == rest;
      }
    }
  }

  /** Drops the leading whitespace of s. */
  function TrimStart(s: string): (r: string)
    ensures |r| <= |s| && r == s[|s| - |r|..]
    ensures forall i :: 0 <= i < |s| - |r| ==> IsSpace(s[i])
    ensures r == [] || !IsSpace(r[0])
  {
    s[RunLength(s, IsSpace)..]
  }

  /** Drops the trailing whitespace of s. */
  function TrimEnd(s: string): (r: string)
    ensures |r| <= |s| && r == s[..|r|]
    ensures forall i :: |r| <= i < |s| ==> IsSpace(s[i])
    ensures r == [] || !IsSpace(r[|r| - 1])
  {
    if s != [] && IsSpace(s[|s| - 1]) then TrimEnd(s[..|s| - 1]) else s
  }

  /** `str.strip()`: the slice of s between its leading and its trailing whitespace. */
  function Strip(s: string): (r: string)
    ensures r == [] || (!IsSpace(r[0]) && !IsSpace(r[|r| - 1]))
    ensures var a := RunLength(s, IsSpace); a + |r| <= |s| && r == s[a..a + |r|]
  {
    var t := TrimStart(s);
    var r := TrimEnd(t);
    assert r == s[|s| - |t|..|s| - |t| + |r|];
    r
  }

  lemma TrimStartKeepsWords(s: string)
    ensures Filter(TrimStart(s), NotSpace) == Filter(s, NotSpace)
  {
    var r := TrimStart(s);
    var lead := s[..|s| - |r|];
    assert s == lead + r;
    FilterAppend(lead, r, NotSpace);
    FilterNone(lead, NotSpace);
  }

  lemma TrimEndKeepsWords(s: string)
    ensures Filter(TrimEnd(s), NotSpace) == Filter(s, NotSpace)
  {
    var r := TrimEnd(s);
    var tail := s[|r|..];
    assert s == r + tail;
    FilterAppend(r, tail, NotSpace);
    forall i | 0 <= i < |tail| ensures !NotSpace(tail[i]) {
      assert tail[i] == s[|r| + i];
    }
    FilterNone(tail, NotSpace);
    assert Filter(s, NotSpace) == Filter(r, NotSpace) + [];
  }

  /** Stripping removes only whitespace. */
  lemma StripKeepsWords(s: string)
    ensures Filter(Strip(s), NotSpace) == Filter(s, NotSpace)
  {
    TrimStartKeepsWords(s);
    TrimEndKeepsWords(TrimStart(s));
  }

  // ---------------------------------------------------------------------------
  // Step 6: str.lower()
  // ---------------------------------------------------------------------------

  function LowerChar(c: char): (d: char)
    ensures !IsUpper(d)
    ensures IsSpace(d) == IsSpace(c) && IsAscii(d) == IsAscii(c)
    ensures !IsUpper(c) ==> d == c
  {
    if IsUpper(c) then (c as int + 32) as char else c
  }

  /** Lower-cases the ASCII letters. */
  function Lower(s: string): (r: string)
    ensures |r| == |s|
    ensures forall i :: 0 <= i < |s| ==> r[i] == LowerChar(s[i])
  {
    seq(|s|, i requires 0 <= i < |s| => LowerChar(s[i]))
  }

  /** Lower-casing and dropping whitespace commute. */
  lemma {:induction false} LowerFilterCommutes(s: string)
    ensures Filter(Lower(s), NotSpace) == Lower(Filter(s, NotSpace))
  {
    if s != [] {
      LowerFilterCommutes(s[1..]);
      assert Lower(s)[1..] == Lower(s[1..]);
      assert Lower(s) == [LowerChar(s[0])] + Lower(s[1..]);
      var front := if NotSpace(s[0]) then [s[0]] else [];
      assert Lower(front + Filter(s[1..], NotSpace)) == Lower(front) + Lower(Filter(s[1..], NotSpace));
    }
  }

  /** Text that is already lower case is left alone. */
  lemma LowerOfLower(s: string)
    requires forall i :: 0 <= i < |s| ==> !IsUpper(s[i])
    ensures Lower(s) == s
  {
  }

  // ---------------------------------------------------------------------------
  // clean_text
  // ---------------------------------------------------------------------------

  /** `clean_text`: an absent text becomes "", any other text goes through the six steps in order. */
  function CleanText(t: Option<string>): (r: string)
    ensures t.None? ==> r == []
    ensures '#' !in r
    ensures forall i :: 0 <= i < |r| ==> IsAscii(r[i]) && !IsUpper(r[i])
    ensures Normalized(r)
  {
    match t
    case None => []
    case Some(s) =>
      var ascii := ReplaceNonAscii(StripMarkup(s));
      assert AsciiNoHash(ascii);
      var collapsed := CollapseSpaces(ascii);
      AsciiNoHashKept(ascii, collapsed);
      var stripped := Strip(collapsed);
      assert AsciiNoHash(stripped);
      StripCollapsedIsNormalized(collapsed);
      LowerKeepsNormalized(stripped);
      Lower(stripped)
  }

  /** Stripping text whose whitespace is already collapsed to single spaces normalizes it. */
  lemma StripCollapsedIsNormalized(c: string)
    requires forall i :: 0 <= i < |c| && IsSpace(c[i]) ==> c[i] == ' '
    requires forall i :: 0 <= i < |c| - 1 ==> !(IsSpace(c[i]) && IsSpace(c[i + 1]))
    ensures Normalized(Strip(c))
  {
    var a, r := RunLength(c, IsSpace), Strip(c);
    assert forall i :: 0 <= i < |r| ==> r[i] == c[a + i];
  }

  /** Lower-casing keeps whitespace where it is, so normalized text stays normalized. */
  lemma LowerKeepsNormalized(s: string)
    requires Normalized(s)
    ensures Normalized(Lower(s))
  {
  }

  /** Every character is ASCII and none is '#'. */
  predicate AsciiNoHash(s: string)
  {
    forall i :: 0 <= i < |s| ==> IsAscii(s[i]) && s[i] != '#'
  }

  lemma AsciiNoHashKept(s: string, r: string)
    requires AsciiNoHash(s)
    requires forall i :: 0 <= i < |r| ==> r[i] == ' ' || r[i] in s
    ensures AsciiNoHash(r)
  {
    forall i | 0 <= i < |r| ensures IsAscii(r[i]) && r[i] != '#' {
      if r[i] != ' ' {
        var j :| 0 <= j < |s| && s[j] == r[i];
      }
    }
  }

  /** What survives cleaning: apart from whitespace, the cleaned text is exactly the ASCII
      characters left after steps 1 to 3, lower-cased and in their original order. */
  lemma CleanTextKeepsWords(s: string)
    ensures Filter(CleanText(Some(s)), NotSpace) == Lower(Filter(StripMarkup(s), AsciiNotSpace))
  {
    var ascii := ReplaceNonAscii(StripMarkup(s));
    var collapsed := CollapseSpaces(ascii);
    ReplaceNonAsciiKeepsAscii(StripMarkup(s));
    CollapseSpacesKeepsWords(ascii);
    StripKeepsWords(collapsed);
    LowerFilterCommutes(Strip(collapsed));
  }

  // ---------------------------------------------------------------------------
  // When cleaning changes nothing
  // ---------------------------------------------------------------------------

  lemma {:induction false} ReplaceNonAsciiIdentity(s: string)
    requires forall i :: 0 <= i < |s| ==> IsAscii(s[i])
    ensures ReplaceNonAscii(s) == s
  {
    if s != [] {
      ReplaceNonAsciiIdentity(s[1..]);
    }
  }

  lemma {:induction false} CollapseSpacesIdentity(s: string)
    requires forall i :: 0 <= i < |s| - 1 ==> !(IsSpace(s[i]) && IsSpace(s[i + 1]))
    requires forall i :: 0 <= i < |s| && IsSpace(s[i]) ==> s[i] == ' '
    ensures CollapseSpaces(s) == s
  {
    if s != [] {
      if IsSpace(s[0]) {
        assert RunLength(s, IsSpace) == 1 by {
          assert |s| == 1 || !IsSpace(s[1]);
          if |s| > 1 { assert RunLength(s[1..], IsSpace) == 0; }
        }
      }
      CollapseSpacesIdentity(s[1..]);
    }
  }

  lemma StripIdentity(s: string)
    requires s == [] || (!IsSpace(s[0]) && !IsSpace(s[|s| - 1]))
    ensures Strip(s) == s
  {
    assert TrimStart(s) == s;
  }

  /** Text with nothing to strip, no '#', only ASCII and already normalized whitespace is
      only lower-cased. */
  lemma CleanTextOfPlain(s: string)
    requires NoUrl(s) && NoMention(s) && AsciiNoHash(s) && Normalized(s)
    ensures CleanText(Some(s)) == Lower(s)
  {
    StripUrlsIdentity(s);
    StripMentionsIdentity(s);
    FilterAll(s, NotHash);
    assert StripMarkup(s) == s;
    ReplaceNonAsciiIdentity(s);
    CollapseSpacesIdentity(s);
    StripIdentity(s);
  }

  /** Cleaning a cleaned text again changes nothing, unless the cleaned text holds a match of
      `http\S+` or `@\w+`; lower-casing and the removal of '#' can create one, e.g. from
      "HTTP://x" or "@#x". */
  lemma CleanTextIdempotentWithoutMarkup(t: Option<string>)
    requires NoUrl(CleanText(t)) && NoMention(CleanText(t))
    ensures CleanText(Some(CleanText(t))) == CleanText(t)
  {
    var r := CleanText(t);
    CleanTextOfPlain(r);
    LowerOfLower(r);
  }

  /** Text of non-whitespace ASCII characters without 'h', '@' or '#' holds nothing to strip
      and is already normalized. */
  lemma PlainText(s: string)
    requires forall i :: 0 <= i < |s| ==>
      IsAscii(s[i]) && NotSpace(s[i]) && s[i] != 'h' && s[i] != '@' && s[i] != '#'
    ensures NoUrl(s) && NoMention(s) && AsciiNoHash(s) && Normalized(s)
  {
    forall i | 0 <= i < |s| ensures !UrlAt(s[i..]) && !MentionAt(s[i..]) {
      assert s[i..][0] == s[i];
    }
  }

  /** The URL pattern is matched before lower-casing, so an upper-case URL survives ... */
  lemma CleanTextKeepsUpperCaseUrl()
    ensures CleanText(Some("HTTP://x")) == "http://x"
  {
    var s := "HTTP://x";
    assert CleanText(Some(s)) == Lower(s) by {
      assert NotSpace('H') && NotSpace('T') && NotSpace('P') && NotSpace(':') && NotSpace('/') && NotSpace('x');
      PlainText(s);
      CleanTextOfPlain(s);
    }
    LowerOfUpperCaseUrl();
  }

  lemma LowerOfUpperCaseUrl()
    ensures Lower("HTTP://x") == "http://x"
  {
    var r := Lower("HTTP://x");
    assert |r| == 8;
    assert r[0] == 'h' && r[1] == 't' && r[2] == 't' && r[3] == 'p';
    assert r[4] == ':' && r[5] == '/' && r[6] == '/' && r[7] == 'x';
  }

  /** ... and is removed when the cleaned text is cleaned again: clean_text is not idempotent. */
  lemma CleanTextRemovesLowerCaseUrl()
    ensures CleanText(Some("http://x")) == ""
  {
    StripUrlsOfLowerCaseUrl();
    assert StripMarkup("http://x") == [];
  }

  lemma StripUrlsOfLowerCaseUrl()
    ensures StripUrls("http://x") == []
  {
    var s := "http://x";
    assert NotSpace('h') && NotSpace('t') && NotSpace('p') && NotSpace(':') && NotSpace('/') && NotSpace('x');
    assert forall i :: 0 <= i < |s| ==> NotSpace(s[i]);
    StripUrlsOfWholeUrl(s);
  }

  /** A text that is one URL and nothing else is deleted entirely. */
  lemma StripUrlsOfWholeUrl(s: string)
    requires UrlAt(s) && forall i :: 0 <= i < |s| ==> NotSpace(s[i])
    ensures StripUrls(s) == []
  {
    assert RunLength(s, NotSpace) == |s|;
    assert s[|s|..] == [];
  }

  // ---------------------------------------------------------------------------
  // Piece by piece: where each substitution puts its output
  // ---------------------------------------------------------------------------

  /** A run that covers all of a continues into b. */
  lemma {:induction false} RunLengthAppend(a: string, b: string, p: char -> bool)
    ensures RunLength(a + b, p) ==
      if forall i :: 0 <= i < |a| ==> p(a[i]) then |a| + RunLength(b, p) else RunLength(a, p)
    decreases |a|
  {
    if a != [] {
      assert (a + b)[0] == a[0];
      if p(a[0]) {
        assert (a + b)[1..] == a[1..] + b;
        RunLengthAppend(a[1..], b, p);
        assert (forall i :: 0 <= i < |a| ==> p(a[i])) <==> (forall i :: 0 <= i < |a[1..]| ==> p(a[1..][i])) by {
          if forall i :: 0 <= i < |a[1..]| ==> p(a[1..][i]) {
            forall i | 0 <= i < |a| ensures p(a[i]) {
              if i > 0 { assert a[i] == a[1..][i - 1]; }
            }
          }
        }
      }
    } else {
      assert a + b == b;
    }
  }

  /** The URL substitution works on whitespace-separated pieces independently: a match never
      reaches past whitespace. */
  lemma {:induction false} StripUrlsAppend(a: string, b: string)
    requires b == [] || IsSpace(b[0])
    ensures StripUrls(a + b) == StripUrls(a) + StripUrls(b)
    decreases |a|
  {
    if a == [] {
      assert a + b == b;
    } else if UrlAt(a) {
      var n := RunLength(a, NotSpace);
      StripUrlsAppend(a[n..], b);
      StripUrlsAppendUrl(a, b, n);
    } else {
      StripUrlsAppend(a[1..], b);
      StripUrlsAppendCopy(a, b);
    }
  }

  /** Step of StripUrlsAppend: a starts with a match, which ends inside a. */
  lemma StripUrlsAppendUrl(a: string, b: string, n: nat)
    requires UrlAt(a) && n == RunLength(a, NotSpace)
    requires b == [] || IsSpace(b[0])
    requires StripUrls(a[n..] + b) == StripUrls(a[n..]) + StripUrls(b)
    ensures StripUrls(a + b) == StripUrls(a) + StripUrls(b)
  {
    assert UrlAt(a + b);
    assert RunLength(a + b, NotSpace) == n by {
      RunLengthAppend(a, b, NotSpace);
    }
    DropOfAppend(a, b, n);
    assert StripUrls(a + b) == StripUrls(a[n..] + b);
  }

  /** Step of StripUrlsAppend: a starts with a character that is copied. */
  lemma StripUrlsAppendCopy(a: string, b: string)
    requires a != [] && !UrlAt(a)
    requires b == [] || IsSpace(b[0])
    requires StripUrls(a[1..] + b) == StripUrls(a[1..]) + StripUrls(b)
    ensures StripUrls(a + b) == StripUrls(a) + StripUrls(b)
  {
    assert !UrlAt(a + b) by {
      assert NotSpace('h') && NotSpace('t') && NotSpace('p');
      if |a| < 5 && b != [] {
        assert (a + b)[|a|] == b[0];
      }
    }
    assert (a + b)[0] == a[0];
    DropOfAppend(a, b, 1);
    assert StripUrls(a + b) == [a[0]] + StripUrls(a[1..] + b);
    assert StripUrls(a) == [a[0]] + StripUrls(a[1..]);
    Regroup(StripUrls(a + b), StripUrls(a), [a[0]], StripUrls(a[1..]), StripUrls(b));
  }

  /** A whitespace character is always copied. */
  lemma StripUrlsSpaceCons(c: char, w: string)
    requires IsSpace(c)
    ensures StripUrls([c] + w) == [c] + StripUrls(w)
  {
    assert ([c] + w)[1..] == w;
  }

  /** A whitespace-free piece is cut at its first match of `http\S+`: what precedes the match
      stays, the match and the rest of the piece go. */
  lemma {:induction false} StripUrlsOfPiece(w: string, k: nat)
    requires forall i :: 0 <= i < |w| ==> NotSpace(w[i])
    requires k <= |w| && UrlAt(w[k..])
    requires forall i :: 0 <= i < k ==> !UrlAt(w[i..])
    ensures StripUrls(w) == w[..k]
    decreases k
  {
    if k == 0 {
      assert w[0..] == w;
      StripUrlsOfWholeUrl(w);
    } else {
      assert w[0..] == w;
      assert w[1..][k - 1..] == w[k..];
      forall i | 0 <= i < k - 1 ensures !UrlAt(w[1..][i..]) {
        assert w[1..][i..] == w[i + 1..];
      }
      StripUrlsOfPiece(w[1..], k - 1);
      assert w[..k] == [w[0]] + w[1..][..k - 1];
    }
  }

  /** The mention substitution works on pieces that start at a non-word character: a match
      never reaches past one. */
  lemma {:induction false} StripMentionsAppend(a: string, b: string)
    requires b == [] || !IsWordChar(b[0])
    ensures StripMentions(a + b) == StripMentions(a) + StripMentions(b)
    decreases |a|
  {
    if a == [] {
      assert a + b == b;
    } else if MentionAt(a) {
      var n := RunLength(a[1..], IsWordChar);
      StripMentionsAppend(a[1 + n..], b);
      StripMentionsAppendMention(a, b, n);
    } else {
      StripMentionsAppend(a[1..], b);
      StripMentionsAppendCopy(a, b);
    }
  }

  /** Step of StripMentionsAppend: a starts with a match, which ends inside a. */
  lemma StripMentionsAppendMention(a: string, b: string, n: nat)
    requires MentionAt(a) && n == RunLength(a[1..], IsWordChar)
    requires b == [] || !IsWordChar(b[0])
    requires StripMentions(a[1 + n..] + b) == StripMentions(a[1 + n..]) + StripMentions(b)
    ensures StripMentions(a + b) == StripMentions(a) + StripMentions(b)
  {
    assert MentionAt(a + b);
    DropOfAppend(a, b, 1);
    assert RunLength((a + b)[1..], IsWordChar) == n by {
      RunLengthAppend(a[1..], b, IsWordChar);
    }
    DropOfAppend(a, b, 1 + n);
    assert StripMentions(a + b) == StripMentions(a[1 + n..] + b);
  }

  /** Step of StripMentionsAppend: a starts with a character that is copied. */
  lemma StripMentionsAppendCopy(a: string, b: string)
    requires a != [] && !MentionAt(a)
    requires b == [] || !IsWordChar(b[0])
    requires StripMentions(a[1..] + b) == StripMentions(a[1..]) + StripMentions(b)
    ensures StripMentions(a + b) == StripMentions(a) + StripMentions(b)
  {
    assert !MentionAt(a + b) by {
      if |a| < 2 && b != [] {
        assert (a + b)[1] == b[0];
      }
    }
    assert (a + b)[0] == a[0];
    DropOfAppend(a, b, 1);
    assert StripMentions(a + b) == [a[0]] + StripMentions(a[1..] + b);
    assert StripMentions(a) == [a[0]] + StripMentions(a[1..]);
    Regroup(StripMentions(a + b), StripMentions(a), [a[0]], StripMentions(a[1..]), StripMentions(b));
  }

  /** A piece that is one mention is deleted entirely. */
  lemma StripMentionsOfMention(w: string)
    requires |w| >= 2 && w[0] == '@'
    requires forall i :: 1 <= i < |w| ==> IsWordChar(w[i])
    ensures StripMentions(w) == []
  {
    assert RunLength(w[1..], IsWordChar) == |w| - 1;
    assert w[|w|..] == [];
  }

  /** A piece that is not a mention is kept: it does not start with '@' followed by a word
      character, and its other characters are word characters. */
  lemma StripMentionsOfWord(w: string)
    requires w != [] && (w[0] != '@' || |w| == 1)
    requires forall i :: 1 <= i < |w| ==> IsWordChar(w[i])
    ensures StripMentions(w) == w
  {
    forall i | 0 <= i < |w| ensures !MentionAt(w[i..]) {
      assert w[i..][0] == w[i];
    }
    StripMentionsIdentity(w);
  }

  /** The non-ASCII substitution works on pieces independently, unless a cut splits a run of
      non-ASCII characters. */
  lemma {:induction false} ReplaceNonAsciiAppend(a: string, b: string)
    requires a == [] || b == [] || IsAscii(a[|a| - 1]) || IsAscii(b[0])
    ensures ReplaceNonAscii(a + b) == ReplaceNonAscii(a) + ReplaceNonAscii(b)
    decreases |a|
  {
    if a == [] {
      assert a + b == b;
    } else if !IsAscii(a[0]) {
      var n := RunLength(a, NotAscii);
      if n < |a| {
        LastOfDrop(a, n);
        ReplaceNonAsciiAppend(a[n..], b);
        ReplaceNonAsciiAppendRun(a, b, n);
      } else {
        ReplaceNonAsciiAppendWhole(a, b);
      }
    } else {
      if |a| > 1 {
        LastOfDrop(a, 1);
      }
      ReplaceNonAsciiAppend(a[1..], b);
      ReplaceNonAsciiAppendCopy(a, b);
    }
  }

  /** Step of ReplaceNonAsciiAppend: a starts with a run of non-ASCII characters that ends inside a. */
  lemma ReplaceNonAsciiAppendRun(a: string, b: string, n: nat)
    requires a != [] && !IsAscii(a[0]) && n == RunLength(a, NotAscii) && n < |a|
    requires ReplaceNonAscii(a[n..] + b) == ReplaceNonAscii(a[n..]) + ReplaceNonAscii(b)
    ensures ReplaceNonAscii(a + b) == ReplaceNonAscii(a) + ReplaceNonAscii(b)
  {
    assert RunLength(a + b, NotAscii) == n by {
      RunLengthAppend(a, b, NotAscii);
    }
    assert (a + b)[0] == a[0];
    DropOfAppend(a, b, n);
    assert ReplaceNonAscii(a + b) == [' '] + ReplaceNonAscii(a[n..] + b);
    assert ReplaceNonAscii(a) == [' '] + ReplaceNonAscii(a[n..]);
    Regroup(ReplaceNonAscii(a + b), ReplaceNonAscii(a), [' '], ReplaceNonAscii(a[n..]), ReplaceNonAscii(b));
  }

  /** Step of ReplaceNonAsciiAppend: a is all non-ASCII and b does not start with a non-ASCII character. */
  lemma ReplaceNonAsciiAppendWhole(a: string, b: string)
    requires a != [] && !IsAscii(a[0]) && RunLength(a, NotAscii) == |a|
    requires b == [] || IsAscii(b[0])
    ensures ReplaceNonAscii(a + b) == ReplaceNonAscii(a) + ReplaceNonAscii(b)
  {
    assert RunLength(a + b, NotAscii) == |a| by {
      RunLengthAppend(a, b, NotAscii);
    }
    assert (a + b)[0] == a[0];
    DropOfAppend(a, b, |a|);
    assert ReplaceNonAscii(a + b) == [' '] + ReplaceNonAscii(b);
    assert a[|a|..] == [];
    assert ReplaceNonAscii(a) == [' '];
  }

  /** Step of ReplaceNonAsciiAppend: a starts with a character that is copied. */
  lemma ReplaceNonAsciiAppendCopy(a: string, b: string)
    requires a != [] && IsAscii(a[0])
    requires ReplaceNonAscii(a[1..] + b) == ReplaceNonAscii(a[1..]) + ReplaceNonAscii(b)
    ensures ReplaceNonAscii(a + b) == ReplaceNonAscii(a) + ReplaceNonAscii(b)
  {
    assert (a + b)[0] == a[0];
    DropOfAppend(a, b, 1);
    assert ReplaceNonAscii(a + b) == [a[0]] + ReplaceNonAscii(a[1..] + b);
    assert ReplaceNonAscii(a) == [a[0]] + ReplaceNonAscii(a[1..]);
    Regroup(ReplaceNonAscii(a + b), ReplaceNonAscii(a), [a[0]], ReplaceNonAscii(a[1..]), ReplaceNonAscii(b));
  }

  /** A whole run of non-ASCII characters becomes one space. */
  lemma ReplaceNonAsciiOfRun(w: string)
    requires w != [] && forall i :: 0 <= i < |w| ==> !IsAscii(w[i])
    ensures ReplaceNonAscii(w) == " "
  {
    assert RunLength(w, NotAscii) == |w|;
    assert w[|w|..] == [];
  }

  /** Collapsing works on pieces independently, unless a cut splits a run of whitespace. */
  lemma {:induction false} CollapseSpacesAppend(a: string, b: string)
    requires a == [] || b == [] || !IsSpace(a[|a| - 1]) || !IsSpace(b[0])
    ensures CollapseSpaces(a + b) == CollapseSpaces(a) + CollapseSpaces(b)
    decreases |a|
  {
    if a == [] {
      assert a + b == b;
    } else if IsSpace(a[0]) {
      var n := RunLength(a, IsSpace);
      if n < |a| {
        LastOfDrop(a, n);
        CollapseSpacesAppend(a[n..], b);
        CollapseSpacesAppendRun(a, b, n);
      } else {
        CollapseSpacesAppendWhole(a, b);
      }
    } else {
      if |a| > 1 {
        LastOfDrop(a, 1);
      }
      CollapseSpacesAppend(a[1..], b);
      CollapseSpacesAppendCopy(a, b);
    }
  }

  /** Step of CollapseSpacesAppend: a starts with a run of whitespace that ends inside a. */
  lemma CollapseSpacesAppendRun(a: string, b: string, n: nat)
    requires a != [] && IsSpace(a[0]) && n == RunLength(a, IsSpace) && n < |a|
    requires CollapseSpaces(a[n..] + b) == CollapseSpaces(a[n..]) + CollapseSpaces(b)
    ensures CollapseSpaces(a + b) == CollapseSpaces(a) + CollapseSpaces(b)
  {
    assert RunLength(a + b, IsSpace) == n by {
      RunLengthAppend(a, b, IsSpace);
    }
    assert (a + b)[0] == a[0];
    DropOfAppend(a, b, n);
    assert CollapseSpaces(a + b) == [' '] + CollapseSpaces(a[n..] + b);
    assert CollapseSpaces(a) == [' '] + CollapseSpaces(a[n..]);
    Regroup(CollapseSpaces(a + b), CollapseSpaces(a), [' '], CollapseSpaces(a[n..]), CollapseSpaces(b));
  }

  /** Step of CollapseSpacesAppend: a is all whitespace and b does not start with any. */
  lemma CollapseSpacesAppendWhole(a: string, b: string)
    requires a != [] && IsSpace(a[0]) && RunLength(a, IsSpace) == |a|
    requires b == [] || !IsSpace(b[0])
    ensures CollapseSpaces(a + b) == CollapseSpaces(a) + CollapseSpaces(b)
  {
    assert RunLength(a + b, IsSpace) == |a| by {
      RunLengthAppend(a, b, IsSpace);
    }
    assert (a + b)[0] == a[0];
    DropOfAppend(a, b, |a|);
    assert CollapseSpaces(a + b) == [' '] + CollapseSpaces(b);
    assert a[|a|..] == [];
    assert CollapseSpaces(a) == [' '];
  }

  /** Step of CollapseSpacesAppend: a starts with a character that is copied. */
  lemma CollapseSpacesAppendCopy(a: string, b: string)
    requires a != [] && !IsSpace(a[0])
    requires CollapseSpaces(a[1..] + b) == CollapseSpaces(a[1..]) + CollapseSpaces(b)
    ensures CollapseSpaces(a + b) == CollapseSpaces(a) + CollapseSpaces(b)
  {
    assert (a + b)[0] == a[0];
    DropOfAppend(a, b, 1);
    assert CollapseSpaces(a + b) == [a[0]] + CollapseSpaces(a[1..] + b);
    assert CollapseSpaces(a) == [a[0]] + CollapseSpaces(a[1..]);
    Regroup(CollapseSpaces(a + b), CollapseSpaces(a), [a[0]], CollapseSpaces(a[1..]), CollapseSpaces(b));
  }

  /** A whole run of whitespace becomes one space. */
  lemma CollapseSpacesOfRun(w: string)
    requires w != [] && forall i :: 0 <= i < |w| ==> IsSpace(w[i])
    ensures CollapseSpaces(w) == " "
  {
    assert RunLength(w, IsSpace) == |w|;
    assert w[|w|..] == [];
  }

  /** A URL preceded by a space and followed by whitespace or the end of the text is deleted;
      the text on both sides of it, and the space before it, stay as they were. */
  lemma StripUrlsDropsUrl(a: string, u: string, c: string)
    requires NoUrl(a) && NoUrl(c) && (c == [] || IsSpace(c[0]))
    requires UrlAt(u) && forall i :: 0 <= i < |u| ==> NotSpace(u[i])
    ensures StripUrls(a + (([' '] + u) + c)) == a + ([' '] + c)
  {
    assert IsSpace((([' '] + u) + c)[0]);
    StripUrlsAppend(a, ([' '] + u) + c);
    StripUrlsAppend([' '] + u, c);
    StripUrlsSpaceCons(' ', u);
    StripUrlsOfWholeUrl(u);
    StripUrlsIdentity(a);
    StripUrlsIdentity(c);
    assert StripUrls([' '] + u) == [' '];
  }

  /** A mention followed by a non-word character or the end of the text is deleted; the text on
      both sides of it stays as it was. */
  lemma StripMentionsDropsMention(a: string, m: string, c: string)
    requires NoMention(a) && NoMention(c) && (c == [] || !IsWordChar(c[0]))
    requires |m| >= 2 && m[0] == '@' && forall i :: 1 <= i < |m| ==> IsWordChar(m[i])
    ensures StripMentions(a + (m + c)) == a + c
  {
    assert (m + c)[0] == '@';
    StripMentionsAppend(a, m + c);
    StripMentionsAppend(m, c);
    StripMentionsOfMention(m);
    StripMentionsIdentity(a);
    StripMentionsIdentity(c);
    assert [] + c == c;
  }

  /** Removing '#' drops each hash sign and nothing else: a cut at a hash sign loses just it. */
  lemma RemoveHashesDropsHash(a: string, b: string)
    ensures RemoveHashes(a + (['#'] + b)) == RemoveHashes(a) + RemoveHashes(b)
  {
    FilterAppend(a, ['#'] + b, NotHash);
    assert (['#'] + b)[1..] == b;
  }

  /** Text without '#' is kept as it is. */
  lemma RemoveHashesIdentity(s: string)
    requires '#' !in s
    ensures RemoveHashes(s) == s
  {
    FilterAll(s, NotHash);
  }

  /** Whitespace between two pieces that neither start nor end with whitespace becomes one space. */
  lemma CollapseSpacesJoinsPieces(a: string, w: string, c: string)
    requires a != [] && !IsSpace(a[|a| - 1]) && c != [] && !IsSpace(c[0])
    requires w != [] && forall i :: 0 <= i < |w| ==> IsSpace(w[i])
    ensures CollapseSpaces(a + (w + c)) == CollapseSpaces(a) + ([' '] + CollapseSpaces(c))
  {
    CollapseSpacesAppend(a, w + c);
    CollapseSpacesAppend(w, c);
    CollapseSpacesOfRun(w);
  }

  /** Lower-casing works character by character. */
  lemma LowerAppend(a: string, b: string)
    ensures Lower(a + b) == Lower(a) + Lower(b)
  {
  }

  // ---------------------------------------------------------------------------
  // A worked example
  // ---------------------------------------------------------------------------

  /** A post with a URL, a mention and two hashtags, cleaned step by step. */
  lemma CleanTextOfSamplePost()
    ensures CleanText(Some("Check this http://x.co @joe #great #great")) == "check this great great"
  {
    SampleUrls();
    SampleMentions();
    SampleHashes();
    SampleSpacing();
    SampleLower();
  }

  /** Text without an 'h' directly followed by 't' holds no match of `http\S+`. */
  lemma NoUrlWithoutHt(s: string)
    requires forall i :: 0 <= i < |s| - 1 ==> !(s[i] == 'h' && s[i + 1] == 't')
    ensures NoUrl(s)
  {
    forall i | 0 <= i < |s| ensures !UrlAt(s[i..]) {
      if |s| - i >= 5 {
        assert s[i..][0] == s[i] && s[i..][1] == s[i + 1];
      }
    }
  }

  /** Text without '@' holds no match of `@\w+`. */
  lemma NoMentionWithoutAt(s: string)
    requires forall i :: 0 <= i < |s| ==> s[i] != '@'
    ensures NoMention(s)
  {
    forall i | 0 <= i < |s| ensures !MentionAt(s[i..]) {
      assert s[i..][0] == s[i];
    }
  }

  /** Step 1 deletes the URL and keeps the whitespace on both sides of it. */
  lemma SampleUrls()
    ensures StripUrls("Check this http://x.co @joe #great #great") == "Check this  @joe #great #great"
  {
    SampleUrlsText();
    SampleUrlsPieces();
    StripUrlsDropsUrl("Check this", "http://x.co", " @joe #great #great");
  }

  lemma SampleUrlsText()
    ensures "Check this http://x.co @joe #great #great" ==
      "Check this" + (([' '] + "http://x.co") + " @joe #great #great")
    ensures "Check this" + ([' '] + " @joe #great #great") == "Check this  @joe #great #great"
  {
    SampleUrlsSplit();
    assert [' '] + " @joe #great #great" == "  @joe #great #great";
  }

  lemma SampleUrlsSplit()
    ensures "Check this http://x.co @joe #great #great" ==
      "Check this" + (([' '] + "http://x.co") + " @joe #great #great")
  {
    SampleUrlsHead();
    SampleUrlsTail();
  }

  lemma SampleUrlsHead()
    ensures "Check this http://x.co @joe #great #great" == "Check this" + " http://x.co @joe #great #great"
  {
  }

  lemma SampleUrlsTail()
    ensures " http://x.co @joe #great #great" == ([' '] + "http://x.co") + " @joe #great #great"
  {
  }

  lemma SampleUrlsPieces()
    ensures NoUrl("Check this") && NoUrl(" @joe #great #great")
    ensures UrlAt("http://x.co") && forall i :: 0 <= i < |"http://x.co"| ==> NotSpace("http://x.co"[i])
  {
    NoUrlWithoutHt("Check this");
    NoUrlWithoutHt(" @joe #great #great");
    assert NotSpace('h') && NotSpace('t') && NotSpace('p') && NotSpace(':') && NotSpace('/');
    assert NotSpace('x') && NotSpace('.') && NotSpace('c') && NotSpace('o');
  }

  /** Step 2 deletes the mention. */
  lemma SampleMentions()
    ensures StripMentions("Check this  @joe #great #great") == "Check this   #great #great"
  {
    SampleMentionsText();
    SampleMentionsPieces();
    StripMentionsDropsMention("Check this  ", "@joe", " #great #great");
  }

  lemma SampleMentionsText()
    ensures "Check this  @joe #great #great" == "Check this  " + ("@joe" + " #great #great")
    ensures "Check this  " + " #great #great" == "Check this   #great #great"
  {
  }

  lemma SampleMentionsPieces()
    ensures NoMention("Check this  ") && NoMention(" #great #great")
    ensures forall i :: 1 <= i < |"@joe"| ==> IsWordChar("@joe"[i])
  {
    NoMentionWithoutAt("Check this  ");
    NoMentionWithoutAt(" #great #great");
  }

  /** Step 3 deletes the hash signs. */
  lemma SampleHashes()
    ensures RemoveHashes("Check this   #great #great") == "Check this   great great"
  {
    SampleHashesText();
    RemoveHashesOfTwoTags("Check this   ", "great ", "great");
  }

  lemma RemoveHashesOfTwoTags(a: string, b: string, c: string)
    requires '#' !in a && '#' !in b && '#' !in c
    ensures RemoveHashes((a + (['#'] + b)) + (['#'] + c)) == a + b + c
  {
    RemoveHashesDropsHash(a + (['#'] + b), c);
    RemoveHashesDropsHash(a, b);
    RemoveHashesIdentity(a);
    RemoveHashesIdentity(b);
    RemoveHashesIdentity(c);
  }

  lemma SampleHashesText()
    ensures "Check this   #great #great" == ("Check this   " + (['#'] + "great ")) + (['#'] + "great")
    ensures "Check this   " + "great " + "great" == "Check this   great great"
    ensures '#' !in "Check this   " && '#' !in "great " && '#' !in "great"
  {
    assert "Check this   #great " == "Check this   " + (['#'] + "great ");
  }

  /** Steps 4 and 5: the text is ASCII, the run of three spaces becomes one, and there is
      nothing to strip. */
  lemma SampleSpacing()
    ensures Strip(CollapseSpaces(ReplaceNonAscii("Check this   great great"))) == "Check this great great"
  {
    SampleSpacingText();
    SampleSpacingPieces();
    ReplaceNonAsciiIdentity("Check this   great great");
    CollapseSpacesJoinsPieces("Check this", "   ", "great great");
    CollapseSpacesIdentity("Check this");
    CollapseSpacesIdentity("great great");
    StripIdentity("Check this great great");
  }

  lemma SampleSpacingText()
    ensures "Check this   great great" == "Check this" + ("   " + "great great")
    ensures "Check this" + ([' '] + "great great") == "Check this great great"
  {
  }

  lemma SampleSpacingPieces()
    ensures forall i :: 0 <= i < |"Check this   great great"| ==> IsAscii("Check this   great great"[i])
    ensures forall i :: 0 <= i < |"   "| ==> IsSpace("   "[i])
    ensures !IsSpace('s') && !IsSpace('g') && !IsSpace('C') && !IsSpace('t')
    ensures SingleSpaced("Check this") && SingleSpaced("great great")
  {
    SampleSingleSpaced("Check this");
    SampleSingleSpaced("great great");
  }

  /** Whitespace occurs only as single plain spaces. */
  predicate SingleSpaced(s: string)
  {
    (forall i :: 0 <= i < |s| - 1 ==> !(IsSpace(s[i]) && IsSpace(s[i + 1]))) &&
    (forall i :: 0 <= i < |s| && IsSpace(s[i]) ==> s[i] == ' ')
  }

  lemma SampleSingleSpaced(s: string)
    requires s == "Check this" || s == "great great"
    ensures SingleSpaced(s)
  {
    assert forall i :: 0 <= i < |s| ==> s[i] == ' ' || AsciiNotSpace(s[i]);
  }

  /** Step 6 lower-cases the one capital letter. */
  lemma SampleLower()
    ensures Lower("Check this great great") == "check this great great"
  {
    SampleLowerText();
    LowerAppend("C", "heck this great great");
    SampleLowerTail();
    LowerOfLower("heck this great great");
    LowerOfCapital();
  }

  lemma SampleLowerText()
    ensures "Check this great great" == "C" + "heck this great great"
    ensures "c" + "heck this great great" == "check this great great"
  {
  }

  lemma LowerOfCapital()
    ensures Lower("C") == "c"
  {
    assert Lower("C")[0] == 'c';
  }

  lemma SampleLowerTail()
    ensures forall i :: 0 <= i < |"heck this great great"| ==> !IsUpper("heck this great great"[i])
  {
  }

  // ---------------------------------------------------------------------------
  // Word count
  // ---------------------------------------------------------------------------

  /** `len(s.split())`: the number of maximal runs of non-whitespace characters. */
  function WordCount(s: string): (n: nat)
    ensures n <= |s|
    ensures n == 0 <==> forall i :: 0 <= i < |s| ==> IsSpace(s[i])
    decreases |s|
  {
    if s == [] then 0
    else if IsSpace(s[0]) then
      var rest := WordCount(s[1..]);
      assert forall i :: 1 <= i < |s| ==> s[i] == s[1..][i - 1];
      rest
    else
      1 + WordCount(s[RunLength(s, NotSpace)..])
  }

  /** A suffix of normalized text that starts at a non-whitespace character is normalized. */
  lemma NormalizedSuffix(s: string, k: nat)
    requires Normalized(s) && k <= |s|
    requires k == |s| || !IsSpace(s[k])
    ensures Normalized(s[k..])
  {
    var t := s[k..];
    assert forall i :: 0 <= i < |t| ==> t[i] == s[k + i];
  }

  /** A word at the head of s counts once, and holds no whitespace. */
  lemma WordAtHead(s: string)
    requires s != [] && !IsSpace(s[0])
    ensures var n := RunLength(s, NotSpace);
      WordCount(s) == 1 + WordCount(s[n..]) && CountIf(s, IsSpace) == CountIf(s[n..], IsSpace)
  {
    var n := RunLength(s, NotSpace);
    assert s == s[..n] + s[n..];
    CountIfAppend(s[..n], s[n..], IsSpace);
    assert forall i :: 0 <= i < n ==> s[..n][i] == s[i];
    CountIfExtremes(s[..n], IsSpace);
  }

  /** A single space in front of a word adds a space but no word. */
  lemma SpaceBeforeWord(u: string)
    requires |u| >= 2 && IsSpace(u[0])
    ensures WordCount(u) == WordCount(u[1..]) && CountIf(u, IsSpace) == 1 + CountIf(u[1..], IsSpace)
  {
  }

  /** In normalized text the words are separated by single spaces: one word more than spaces. */
  lemma {:induction false} WordCountOfNormalized(s: string)
    requires Normalized(s)
    ensures WordCount(s) == if s == [] then 0 else CountIf(s, IsSpace) + 1
    decreases |s|
  {
    if s != [] {
      var n := RunLength(s, NotSpace);
      WordAtHead(s);
      if n < |s| {
        var u := s[n..];
        assert n + 1 < |s| && IsSpace(s[n]) && !IsSpace(s[n + 1]);
        assert |u| >= 2 && IsSpace(u[0]) && u[1..] == s[n + 1..];
        SpaceBeforeWord(u);
        NormalizedSuffix(s, n + 1);
        WordCountOfNormalized(s[n + 1..]);
      }
    }
  }
}
