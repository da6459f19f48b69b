/** The tweet-text cleaner: `process_text`, the per-cell normalisation pipeline, as a
    composition of string transforms, and `clean_twitter_data`, which copies a frame and
    adds to the copy a column of token lists computed from one of its text columns. */
module TwtDataCleaner {
  import opened PyStr

  /** A frame cell: a string, a token list (what `process_text` produces), or any other value
      (a missing value, a number). */
  datatype Cell = Text(s: string) | TokenList(tokens: seq<string>) | Other

  // ---------------------------------------------------------------- re.sub with an empty replacement

  /** The scan `re.sub(pattern, '', text)` performs for a pattern that never matches the empty
      text: `m` gives the length of the match at the start of a text, 0 when there is none; a
      match is dropped and the scan resumes right after it, otherwise one character is kept. */
  function DropMatches(s: string, m: string -> nat): (r: string)
    ensures |r| <= |s|
    decreases |s|
  {
    if s == [] then []
    else
      var n := m(s);
      if 0 < n <= |s| then DropMatches(s[n..], m) else [s[0]] + DropMatches(s[1..], m)
  }

  /** Wherever it starts inside `a`, `m` does not look past the end of `a` into `b`. */
  ghost predicate Blind(m: string -> nat, a: string, b: string) {
    forall k :: 0 <= k < |a| ==> m(a[k..] + b) == m(a[k..]) <= |a| - k
  }

  // ---------------------------------------------------------------- step 3: URLs

  /** Length of a match of `<p>\S+` at the start of `s`, 0 when there is none. */
  function PrefixedRun(s: string, p: string): (n: nat)
    ensures n <= |s|
    ensures n > 0 <==> HasPrefix(s, p) && |s| > |p| && NotSpace(s[|p|])
  {
    if HasPrefix(s, p) && |s| > |p| && NotSpace(s[|p|]) then |p| + LeadingRun(s[|p|..], NotSpace) else 0
  }

  /** Length of a match of `https?://\S+|www\.\S+` at the start of `s`, 0 when there is none. */
  function UrlMatch(s: string): (n: nat)
    ensures n <= |s|
  {
    var secure := PrefixedRun(s, "https://");
    if secure > 0 then secure
    else
      var plain := PrefixedRun(s, "http://");
      if plain > 0 then plain else PrefixedRun(s, "www.")
  }

  /** `re.sub(r'https?://\S+|www\.\S+', '', text)`. */
  function RemoveUrls(s: string): (r: string)
    ensures |r| <= |s|
  {
    DropMatches(s, UrlMatch)
  }

  /** A whole URL as the pattern sees it: a scheme or `www.` and then a run of non-blanks. */
  predicate IsUrl(u: string) {
    || (HasPrefix(u, "http://") && IsWord(u[7..]))
    || (HasPrefix(u, "https://") && IsWord(u[8..]))
    || (HasPrefix(u, "www.") && IsWord(u[4..]))
  }

  // ---------------------------------------------------------------- step 4: mentions and hashtags

  /** The class `[A-Za-z0-9_]`. */
  predicate IsWordChar(c: char) {
    ('A' <= c <= 'Z') || ('a' <= c <= 'z') || ('0' <= c <= '9') || c == '_'
  }

  /** Length of a match of `@[A-Za-z0-9_]+|#[A-Za-z0-9_]+` at the start of `s`, 0 when none. */
  function TagMatch(s: string): (n: nat)
    ensures n <= |s|
  {
    if |s| >= 2 && (s[0] == '@' || s[0] == '#') && IsWordChar(s[1]) then 1 + LeadingRun(s[1..], IsWordChar)
    else 0
  }

  /** `re.sub(r'@[A-Za-z0-9_]+|#[A-Za-z0-9_]+', '', text)`. */
  function RemoveTags(s: string): (r: string)
    ensures |r| <= |s|
  {
    DropMatches(s, TagMatch)
  }

  /** A whole mention or hashtag: `@` or `#` and then at least one word character. */
  predicate IsTag(g: string) {
    |g| >= 2 && (g[0] == '@' || g[0] == '#') && forall k :: 1 <= k < |g| ==> IsWordChar(g[k])
  }

  // ---------------------------------------------------------------- step 5: whitelist

  /** The Devanagari block, U+0900 to U+097F. */
  predicate IsDevanagari(c: char) { '\U{0900}' <= c <= '\U{097f}' }

  /** What a token may be made of: `a`-`z` and Devanagari. */
  predicate TokenChar(c: char) { ('a' <= c <= 'z') || IsDevanagari(c) }

  /** The class `[a-zऀ-ॿ\s]`. */
  predicate Kept(c: char) { TokenChar(c) || IsSpace(c) }

  /** `re.sub(r'[^a-zऀ-ॿ\s]', '', text)`: every character outside the class is dropped. */
  function KeepWhitelisted(s: string): (r: string)
    ensures |r| <= |s|
    ensures forall k :: 0 <= k < |r| ==> Kept(r[k])
    ensures forall x :: x in r <==> x in s && Kept(x)
  {
    if s == [] then []
    else
      var rest := KeepWhitelisted(s[1..]);
      assert forall x :: x in s <==> x == s[0] || x in s[1..];
      if Kept(s[0]) then [s[0]] + rest else rest
  }

  // ---------------------------------------------------------------- step 6: letter runs

  /** Length of the run of `c` that starts `s`. */
  function Run(s: string, c: char): (n: nat)
    ensures n <= |s|
    ensures forall i :: 0 <= i < n ==> s[i] == c
    ensures n == |s| || s[n] != c
  {
    if s != [] && s[0] == c then 1 + Run(s[1..], c) else 0
  }

  /** No character other than a newline (which `.` does not match) occurs three times in a row. */
  predicate NoTripleRun(s: string) {
    forall i :: 0 <= i < |s| - 2 ==> !(s[i] == s[i + 1] && s[i + 1] == s[i + 2] && s[i] != '\n')
  }

  /** `re.sub(r'(.)\1{2,}', r'\1\1', text)`: a run of three or more of one character is cut
      to two; the scan resumes after the whole run. */
  function CollapseRuns(s: string): (r: string)
    ensures |r| <= |s|
    ensures s == [] <==> r == []
    ensures s != [] ==> r[0] == s[0]
    ensures |s| >= 2 && s[1] != s[0] ==> |r| >= 2 && r[1] == s[1]
    ensures forall k :: 0 <= k < |r| ==> r[k] in s
    decreases |s|
  {
    if s == [] then []
    else
      var n := Run(s, s[0]);
      if n >= 3 && s[0] != '\n' then
        var rest := CollapseRuns(s[n..]);
        assert forall x :: x in s[n..] ==> x in s;
        [s[0], s[0]] + rest
      else
        var rest := CollapseRuns(s[1..]);
        assert forall x :: x in s[1..] ==> x in s;
        [s[0]] + rest
  }

  // ---------------------------------------------------------------- steps 7 to 9

  /** `" ".join(text.split())`. */
  function SqueezeSpaces(s: string): (r: string)
    ensures Words(r) == Words(s)
    ensures forall k :: 0 <= k < |r| ==> r[k] == ' ' || NotSpace(r[k])
    ensures Words(s) == [] ==> r == []
    ensures Words(s) != [] ==> Count(r, ' ') == |Words(s)| - 1
  {
    var ws := Words(s);
    assert forall i :: 0 <= i < |ws| ==> IsWord(ws[i]);
    assert forall i :: 0 <= i < |ws| ==> ' ' !in ws[i];
    WordsJoinSpace(ws);
    JoinSpaceChars(ws, NotSpace);
    JoinSpace(ws)
  }

  /** `word_tokenize` on the text step 7 leaves behind, taken to be the split on whitespace. */
  function WordTokenize(text: string): (tokens: seq<string>)
    ensures forall i :: 0 <= i < |tokens| ==> IsWord(tokens[i])
  {
    Words(text)
  }

  /** `[word for word in tokens if word not in stop_words]`. */
  function RemoveStopWords(tokens: seq<string>, stopWords: set<string>): (kept: seq<string>)
    ensures |kept| <= |tokens|
    ensures forall i :: 0 <= i < |kept| ==> kept[i] !in stopWords
    ensures forall w :: w in kept <==> w in tokens && w !in stopWords
  {
    if tokens == [] then []
    else
      var rest := RemoveStopWords(tokens[1..], stopWords);
      assert forall w :: w in tokens <==> w == tokens[0] || w in tokens[1..];
      if tokens[0] in stopWords then rest else [tokens[0]] + rest
  }

  // ---------------------------------------------------------------- process_text

  /** Steps 3 to 9, applied to the text the HTML parser returns. */
  function CleanText(text: string, stopWords: set<string>): (tokens: seq<string>)
    ensures forall i :: 0 <= i < |tokens| ==> IsWord(tokens[i]) && tokens[i] !in stopWords
  {
    var noUrls := RemoveUrls(text);
    var noTags := RemoveTags(noUrls);
    var letters := KeepWhitelisted(noTags);
    var standard := CollapseRuns(letters);
    var spaced := SqueezeSpaces(standard);
    RemoveStopWords(WordTokenize(spaced), stopWords)
  }

  /** `process_text`: a string is lower-cased, handed to the HTML parser `getText`, and cleaned;
      any other value gives the empty string. */
  function ProcessText(getText: string -> string, stopWords: set<string>, v: Cell): (r: Cell)
    ensures r.TokenList? <==> v.Text?
    ensures !v.Text? ==> r == Text("")
  {
    match v
    case Text(s) => TokenList(CleanText(getText(Lower(s)), stopWords))
    case _ => Text("")
  }

  // ---------------------------------------------------------------- re.sub, piecewise

  lemma BlindSuffix(m: string -> nat, a: string, b: string, j: nat)
    requires Blind(m, a, b) && j <= |a|
    ensures Blind(m, a[j..], b)
  {
    forall k | 0 <= k < |a[j..]|
      ensures m(a[j..][k..] + b) == m(a[j..][k..]) <= |a[j..]| - k
    {
      assert a[j..][k..] == a[j + k..];
    }
  }

  /** The scan works piecewise when no match that starts in `a` reaches into `b`. */
  lemma {:induction false} DropMatchesConcat(a: string, b: string, m: string -> nat)
    requires Blind(m, a, b)
    ensures DropMatches(a + b, m) == DropMatches(a, m) + DropMatches(b, m)
    decreases |a|
  {
    if a == [] {
      assert a + b == b;
    } else {
      var n := m(a);
      assert a[0..] == a;
      assert m(a + b) == n <= |a|;
      if n > 0 {
        SliceOfConcat(a, b, n);
        BlindSuffix(m, a, b, n);
        DropMatchesConcat(a[n..], b, m);
      } else {
        SliceOfConcat(a, b, 1);
        BlindSuffix(m, a, b, 1);
        DropMatchesConcat(a[1..], b, m);
      }
    }
  }

  /** A text in which no match starts anywhere is kept whole. */
  lemma {:induction false} DropMatchesNone(s: string, m: string -> nat)
    requires forall k :: 0 <= k < |s| ==> m(s[k..]) == 0
    ensures DropMatches(s, m) == s
    decreases |s|
  {
    if s != [] {
      assert s[0..] == s;
      forall k | 0 <= k < |s[1..]|
        ensures m(s[1..][k..]) == 0
      {
        assert s[1..][k..] == s[k + 1..];
      }
      DropMatchesNone(s[1..], m);
    }
  }

  // ---------------------------------------------------------------- URL removal

  /** A pattern that starts with a blank-free literal does not look past a blank that follows `a`. */
  lemma PrefixedRunConcat(a: string, b: string, p: string)
    requires forall k :: 0 <= k < |p| ==> NotSpace(p[k])
    requires b == [] || IsSpace(b[0])
    ensures PrefixedRun(a + b, p) == PrefixedRun(a, p)
  {
    if |a| > |p| {
      assert (a + b)[..|p|] == a[..|p|];
      assert (a + b)[|p|] == a[|p|];
      if HasPrefix(a, p) && NotSpace(a[|p|]) {
        assert (a + b)[|p|..] == a[|p|..] + b;
        LeadingRunConcat(a[|p|..], b, NotSpace);
      }
    } else if HasPrefix(a + b, p) && |a + b| > |p| {
      assert (a + b)[|a|] == b[0];
    }
  }

  lemma SchemesAreBlankFree()
    ensures forall k :: 0 <= k < |"https://"| ==> NotSpace("https://"[k])
    ensures forall k :: 0 <= k < |"http://"| ==> NotSpace("http://"[k])
    ensures forall k :: 0 <= k < |"www."| ==> NotSpace("www."[k])
  {
  }

  lemma UrlMatchConcat(a: string, b: string)
    requires b == [] || IsSpace(b[0])
    ensures UrlMatch(a + b) == UrlMatch(a)
  {
    SchemesAreBlankFree();
    PrefixedRunConcat(a, b, "https://");
    PrefixedRunConcat(a, b, "http://");
    PrefixedRunConcat(a, b, "www.");
  }

  /** URL removal works piecewise when the second piece starts with a blank (or is empty). */
  lemma RemoveUrlsConcat(a: string, b: string)
    requires b == [] || IsSpace(b[0])
    ensures RemoveUrls(a + b) == RemoveUrls(a) + RemoveUrls(b)
  {
    forall k | 0 <= k < |a|
      ensures UrlMatch(a[k..] + b) == UrlMatch(a[k..]) <= |a| - k
    {
      UrlMatchConcat(a[k..], b);
    }
    DropMatchesConcat(a, b, UrlMatch);
  }

  /** A literal whose `k`-th character the text does not have at `k` does not match. */
  lemma SchemeMismatch(s: string, p: string, k: nat)
    requires k < |p| && k < |s| && s[k] != p[k]
    ensures PrefixedRun(s, p) == 0
  {
  }

  /** A text that starts with `p` and then a blank-free word, followed by a blank or nothing,
      is matched up to that blank. */
  lemma PrefixedRunWhole(u: string, b: string, p: string)
    requires HasPrefix(u, p) && IsWord(u[|p|..])
    requires b == [] || IsSpace(b[0])
    ensures PrefixedRun(u + b, p) == |u|
  {
    var s := u + b;
    assert s[..|p|] == u[..|p|];
    assert s[|p|] == u[|p|];
    assert s[|p|..] == u[|p|..] + b;
    LeadingRunConcat(u[|p|..], b, NotSpace);
    LeadingRunAll(u[|p|..], NotSpace);
  }

  /** A whole URL followed by a blank, or by nothing, is one match. */
  lemma UrlWhole(u: string, b: string)
    requires IsUrl(u)
    requires b == [] || IsSpace(b[0])
    ensures UrlMatch(u + b) == |u|
  {
    var s := u + b;
    assert s[..|u|] == u;
    if HasPrefix(u, "https://") && IsWord(u[8..]) {
      PrefixedRunWhole(u, b, "https://");
    } else if HasPrefix(u, "http://") && IsWord(u[7..]) {
      assert s[4] == u[..7][4] == ':';
      SchemeMismatch(s, "https://", 4);
      PrefixedRunWhole(u, b, "http://");
    } else {
      assert s[0] == u[..4][0] == 'w';
      SchemeMismatch(s, "https://", 0);
      SchemeMismatch(s, "http://", 0);
      PrefixedRunWhole(u, b, "www.");
    }
  }

  /** A blank is never the start of a URL. */
  lemma RemoveUrlsBlank(s: string)
    requires s != [] && IsSpace(s[0])
    ensures RemoveUrls(s) == [s[0]] + RemoveUrls(s[1..])
  {
    SchemeMismatch(s, "https://", 0);
    SchemeMismatch(s, "http://", 0);
    SchemeMismatch(s, "www.", 0);
  }

  /** Every URL holds a `:` or a `.` among its first six characters. */
  lemma NoUrlIn(s: string)
    requires forall k :: 0 <= k < |s| ==> s[k] != ':' && s[k] != '.'
    ensures UrlMatch(s) == 0
  {
    if |s| > 5 {
      SchemeMismatch(s, "https://", 5);
    }
    if |s| > 4 {
      SchemeMismatch(s, "http://", 4);
    }
    if |s| > 3 {
      SchemeMismatch(s, "www.", 3);
    }
  }

  /** A text without `:` and `.` loses nothing to URL removal. */
  lemma RemoveUrlsNone(s: string)
    requires forall k :: 0 <= k < |s| ==> s[k] != ':' && s[k] != '.'
    ensures RemoveUrls(s) == s
  {
    forall k | 0 <= k < |s|
      ensures UrlMatch(s[k..]) == 0
    {
      NoUrlIn(s[k..]);
    }
    DropMatchesNone(s, UrlMatch);
  }

  /** Nor does a match look past a blank at the end of `x`. */
  lemma UrlMatchAfterBlank(x: string, y: string)
    requires x != [] && IsSpace(x[|x| - 1])
    ensures UrlMatch(x + y) == UrlMatch(x)
  {
    var x' := x[..|x| - 1];
    var blank := [x[|x| - 1]];
    assert x == x' + blank;
    assert x + y == x' + (blank + y);
    UrlMatchConcat(x', blank + y);
    UrlMatchConcat(x', blank);
  }

  lemma UrlBlindAfterBlank(a: string, y: string)
    requires a == [] || IsSpace(a[|a| - 1])
    ensures Blind(UrlMatch, a, y)
  {
    forall k | 0 <= k < |a|
      ensures UrlMatch(a[k..] + y) == UrlMatch(a[k..]) <= |a| - k
    {
      var x := a[k..];
      assert x[|x| - 1] == a[|a| - 1];
      UrlMatchAfterBlank(x, y);
    }
  }

  /** A whole match contributes nothing when the scan of what precedes it does not reach it. */
  lemma DropMatchesWhole(a: string, u: string, b: string, m: string -> nat)
    requires Blind(m, a, u + b) && Blind(m, a, b)
    requires u != [] && m(u + b) == |u|
    ensures DropMatches(a + u + b, m) == DropMatches(a + b, m)
  {
    DropMatchesConcat(a, u + b, m);
    DropMatchesConcat(a, b, m);
    DropMatchesFront(u, b, m);
    ConcatAssoc(a, u, b);
  }

  lemma SliceOfConcat(a: string, b: string, n: nat)
    requires n <= |a|
    ensures (a + b)[n..] == a[n..] + b
  {
  }

  lemma HeadTail(s: string)
    requires s != []
    ensures [s[0]] + s[1..] == s
  {
  }

  lemma ConcatAssoc(a: string, u: string, b: string)
    ensures a + u + b == a + (u + b)
  {
  }

  /** A match that covers exactly the first piece drops that piece. */
  lemma DropMatchesFront(u: string, b: string, m: string -> nat)
    requires u != [] && m(u + b) == |u|
    ensures DropMatches(u + b, m) == DropMatches(b, m)
  {
    assert (u + b)[|u|..] == b;
  }

  /** A URL with blanks (or the ends of the text) on both sides contributes nothing. */
  lemma UrlContributesNothing(a: string, u: string, b: string)
    requires IsUrl(u)
    requires a == [] || IsSpace(a[|a| - 1])
    requires b == [] || IsSpace(b[0])
    ensures RemoveUrls(a + u + b) == RemoveUrls(a + b)
  {
    UrlWhole(u, b);
    UrlBlindAfterBlank(a, u + b);
    UrlBlindAfterBlank(a, b);
    DropMatchesWhole(a, u, b, UrlMatch);
  }

  // ---------------------------------------------------------------- mention and hashtag removal

  lemma TagMatchConcat(a: string, b: string)
    requires a != []
    requires b == [] || !IsWordChar(b[0])
    ensures TagMatch(a + b) == TagMatch(a)
  {
    if |a| >= 2 {
      assert (a + b)[0] == a[0] && (a + b)[1] == a[1];
      assert (a + b)[1..] == a[1..] + b;
      LeadingRunConcat(a[1..], b, IsWordChar);
    } else if b != [] {
      assert (a + b)[0] == a[0] && (a + b)[1] == b[0];
    } else {
      assert a + b == a;
    }
  }

  /** Tag removal works piecewise when the second piece does not start with a word character. */
  lemma RemoveTagsConcat(a: string, b: string)
    requires b == [] || !IsWordChar(b[0])
    ensures RemoveTags(a + b) == RemoveTags(a) + RemoveTags(b)
  {
    forall k | 0 <= k < |a|
      ensures TagMatch(a[k..] + b) == TagMatch(a[k..]) <= |a| - k
    {
      TagMatchConcat(a[k..], b);
    }
    DropMatchesConcat(a, b, TagMatch);
  }

  /** A text without `@` and `#` loses nothing to tag removal. */
  lemma RemoveTagsNone(s: string)
    requires forall k :: 0 <= k < |s| ==> s[k] != '@' && s[k] != '#'
    ensures RemoveTags(s) == s
  {
    forall k | 0 <= k < |s|
      ensures TagMatch(s[k..]) == 0
    {
      assert s[k..][0] == s[k];
    }
    DropMatchesNone(s, TagMatch);
  }

  /** A mention or hashtag not followed by a word character contributes nothing, whatever
      precedes it. */
  lemma TagContributesNothing(a: string, g: string, b: string)
    requires IsTag(g)
    requires b == [] || !IsWordChar(b[0])
    ensures RemoveTags(a + g + b) == RemoveTags(a + b)
  {
    var s := g + b;
    assert s[0] == g[0] && s[1] == g[1];
    assert s[1..] == g[1..] + b;
    LeadingRunConcat(g[1..], b, IsWordChar);
    LeadingRunAll(g[1..], IsWordChar);
    assert s[|g|..] == b;
    assert RemoveTags(s) == RemoveTags(b);
    assert a + g + b == a + s;
    RemoveTagsConcat(a, s);
    RemoveTagsConcat(a, b);
  }

  /** A tag holds no `:` and no `.`; after a text that ends at a blank it survives URL removal. */
  lemma TagKeptByUrls(a: string, g: string)
    requires IsTag(g)
    requires a == [] || IsSpace(a[|a| - 1])
    ensures RemoveUrls(a + g) == RemoveUrls(a) + g
  {
    RemoveUrlsNone(g);
    UrlBlindAfterBlank(a, g);
    DropMatchesConcat(a, g, UrlMatch);
  }

  /** URLs and tags in the text the HTML parser returns: one with blanks (or the ends of the
      text) on both sides leaves the tokens as they would be without it. */
  lemma UrlsAndTagsContributeNothing(a: string, x: string, b: string, stopWords: set<string>)
    requires IsUrl(x) || IsTag(x)
    requires a == [] || IsSpace(a[|a| - 1])
    requires b == [] || IsSpace(b[0])
    ensures CleanText(a + x + b, stopWords) == CleanText(a + b, stopWords)
  {
    if IsUrl(x) {
      UrlContributesNothing(a, x, b);
    } else {
      RemoveUrlsConcat(a + x, b);
      RemoveUrlsConcat(a, b);
      TagKeptByUrls(a, x);
      var rb := RemoveUrls(b);
      if b != [] {
        RemoveUrlsBlank(b);
      }
      assert rb == [] || !IsWordChar(rb[0]);
      assert RemoveUrls(a + x + b) == RemoveUrls(a) + x + rb;
      assert RemoveUrls(a + b) == RemoveUrls(a) + rb;
      TagContributesNothing(RemoveUrls(a), x, rb);
    }
  }

  // ---------------------------------------------------------------- whitelist and letter runs

  /** A text made only of whitelisted characters passes step 5 unchanged. */
  lemma {:induction false} KeepAllKept(s: string)
    requires forall k :: 0 <= k < |s| ==> Kept(s[k])
    ensures KeepWhitelisted(s) == s
  {
    if s != [] {
      KeepAllKept(s[1..]);
    }
  }

  /** Step 5 keeps every whitelisted occurrence, in order: it works piecewise. */
  lemma {:induction false} KeepWhitelistedConcat(a: string, b: string)
    ensures KeepWhitelisted(a + b) == KeepWhitelisted(a) + KeepWhitelisted(b)
  {
    if a == [] {
      assert a + b == b;
    } else {
      assert (a + b)[1..] == a[1..] + b;
      KeepWhitelistedConcat(a[1..], b);
    }
  }

  /** On one character, step 5 keeps it exactly when it is whitelisted. */
  lemma KeepWhitelistedChar(c: char)
    ensures KeepWhitelisted([c]) == if Kept(c) then [c] else []
  {
    assert [c][1..] == [];
  }

  /** A run of three or more is cut to two and the scan resumes after it. */
  lemma CollapseLongRun(s: string)
    requires s != [] && Run(s, s[0]) >= 3 && s[0] != '\n'
    ensures CollapseRuns(s) == [s[0], s[0]] + CollapseRuns(s[Run(s, s[0])..])
  {
  }

  /** Otherwise the first character is kept and the scan moves on by one. */
  lemma CollapseShortRun(s: string)
    requires s != [] && (Run(s, s[0]) < 3 || s[0] == '\n')
    ensures CollapseRuns(s) == [s[0]] + CollapseRuns(s[1..])
  {
  }

  /** Two copies of `c` before a text that is free of triples and does not start with `c`. */
  lemma NoTripleAfterPair(c: char, rest: string)
    requires NoTripleRun(rest) && (rest == [] || rest[0] != c)
    ensures NoTripleRun([c, c] + rest)
  {
    var r := [c, c] + rest;
    forall i | 0 <= i < |r| - 2
      ensures !(r[i] == r[i + 1] && r[i + 1] == r[i + 2] && r[i] != '\n')
    {
      if i >= 2 {
        assert r[i] == rest[i - 2] && r[i + 1] == rest[i - 1] && r[i + 2] == rest[i];
      }
    }
  }

  /** One `c` before a triple-free text that does not start with a pair of `c`. */
  lemma NoTripleAfterOne(c: char, rest: string)
    requires NoTripleRun(rest)
    requires !(|rest| >= 2 && rest[0] == c && rest[1] == c && c != '\n')
    ensures NoTripleRun([c] + rest)
  {
    var r := [c] + rest;
    forall i | 0 <= i < |r| - 2
      ensures !(r[i] == r[i + 1] && r[i + 1] == r[i + 2] && r[i] != '\n')
    {
      if i >= 1 {
        assert r[i] == rest[i - 1] && r[i + 1] == rest[i] && r[i + 2] == rest[i + 1];
      }
    }
  }

  /** After step 6 no character but a newline occurs three times in a row. */
  lemma {:induction false} CollapseNoTriple(s: string)
    ensures NoTripleRun(CollapseRuns(s))
    decreases |s|
  {
    if s != [] {
      var c := s[0];
      var n := Run(s, c);
      if n >= 3 && c != '\n' {
        CollapseLongRun(s);
        CollapseNoTriple(s[n..]);
        NoTripleAfterPair(c, CollapseRuns(s[n..]));
      } else {
        CollapseShortRun(s);
        var rest := CollapseRuns(s[1..]);
        CollapseNoTriple(s[1..]);
        if |s| >= 2 && s[1] == c && c != '\n' {
          assert n == 2;
          assert |s| == 2 || s[2] != c;
          if |s| > 2 {
            assert s[1..][1] == s[2] && s[1..][0] == c;
          }
        }
        NoTripleAfterOne(c, rest);
      }
    }
  }

  /** In a text without a triple, the first run is shorter than three or made of newlines. */
  lemma ShortRunWithoutTriple(s: string)
    requires s != [] && NoTripleRun(s)
    ensures Run(s, s[0]) < 3 || s[0] == '\n'
  {
    if Run(s, s[0]) >= 3 {
      assert s[1] == s[0] && s[2] == s[0];
    }
  }

  lemma NoTripleTail(s: string)
    requires s != [] && NoTripleRun(s)
    ensures NoTripleRun(s[1..])
  {
    NoTripleRunSlice(s, 1, |s|);
    assert s[1..|s|] == s[1..];
  }

  /** A text without such a triple passes step 6 unchanged. */
  lemma {:induction false} CollapseIdentity(s: string)
    requires NoTripleRun(s)
    ensures CollapseRuns(s) == s
    decreases |s|
  {
    if s != [] {
      ShortRunWithoutTriple(s);
      CollapseShortRun(s);
      NoTripleTail(s);
      CollapseIdentity(s[1..]);
      HeadTail(s);
    }
  }

  /** Step 6 twice is step 6 once. */
  lemma CollapseIdempotent(s: string)
    ensures CollapseRuns(CollapseRuns(s)) == CollapseRuns(s)
  {
    CollapseNoTriple(s);
    CollapseIdentity(CollapseRuns(s));
  }

  // ---------------------------------------------------------------- words, tokens, stop words

  /** The words of a whitelisted text are made of `a`-`z` and Devanagari. */
  lemma {:induction false} WordsTokenChars(s: string)
    requires forall k :: 0 <= k < |s| ==> Kept(s[k])
    ensures forall i, j :: 0 <= i < |Words(s)| && 0 <= j < |Words(s)[i]| ==> TokenChar(Words(s)[i][j])
    decreases |s|
  {
    if s == [] {
    } else if IsSpace(s[0]) {
      WordsTokenChars(s[1..]);
    } else {
      var n := LeadingRun(s, NotSpace);
      WordsTokenChars(s[n..]);
      var ws := Words(s);
      assert ws == [s[..n]] + Words(s[n..]);
      forall i, j | 0 <= i < |ws| && 0 <= j < |ws[i]|
        ensures TokenChar(ws[i][j])
      {
        if i == 0 {
          assert ws[0][j] == s[j];
        } else {
          assert ws[i] == Words(s[n..])[i - 1];
        }
      }
    }
  }

  lemma NoTripleRunSlice(s: string, lo: nat, hi: nat)
    requires NoTripleRun(s) && lo <= hi <= |s|
    ensures NoTripleRun(s[lo..hi])
  {
    var t := s[lo..hi];
    forall i | 0 <= i < |t| - 2
      ensures !(t[i] == t[i + 1] && t[i + 1] == t[i + 2] && t[i] != '\n')
    {
      assert t[i] == s[lo + i] && t[i + 1] == s[lo + i + 1] && t[i + 2] == s[lo + i + 2];
    }
  }

  /** A word is a slice of the text, so it inherits the absence of triples. */
  lemma {:induction false} WordsNoTriple(s: string)
    requires NoTripleRun(s)
    ensures forall i :: 0 <= i < |Words(s)| ==> NoTripleRun(Words(s)[i])
    decreases |s|
  {
    if s == [] {
    } else if IsSpace(s[0]) {
      NoTripleRunSlice(s, 1, |s|);
      WordsNoTriple(s[1..]);
    } else {
      var n := LeadingRun(s, NotSpace);
      NoTripleRunSlice(s, n, |s|);
      NoTripleRunSlice(s, 0, n);
      assert s[n..|s|] == s[n..] && s[0..n] == s[..n];
      WordsNoTriple(s[n..]);
      var ws := Words(s);
      assert ws == [s[..n]] + Words(s[n..]);
      forall i | 0 <= i < |ws|
        ensures NoTripleRun(ws[i])
      {
        if i > 0 {
          assert ws[i] == Words(s[n..])[i - 1];
        }
      }
    }
  }

  lemma JoinSpaceHead(ws: seq<string>)
    requires ws != []
    ensures HasPrefix(JoinSpace(ws), ws[0])
  {
    if |ws| > 1 {
      assert JoinSpace(ws) == ws[0] + ([' '] + JoinSpace(ws[1..]));
    }
  }

  /** Words without triples, joined by single blanks, hold no triple either. */
  lemma {:induction false} JoinSpaceNoTriple(ws: seq<string>)
    requires forall i :: 0 <= i < |ws| ==> IsWord(ws[i]) && NoTripleRun(ws[i])
    ensures NoTripleRun(JoinSpace(ws))
  {
    if |ws| == 1 {
      assert JoinSpace(ws) == ws[0];
    } else if |ws| > 1 {
      var w := ws[0];
      var tail := JoinSpace(ws[1..]);
      JoinSpaceNoTriple(ws[1..]);
      JoinSpaceHead(ws[1..]);
      assert tail[0] == ws[1][0];
      var j := JoinSpace(ws);
      assert j == w + [' '] + tail;
      var m := |w|;
      forall i | 0 <= i < |j| - 2
        ensures !(j[i] == j[i + 1] && j[i + 1] == j[i + 2] && j[i] != '\n')
      {
        if i + 2 < m {
          assert j[i] == w[i] && j[i + 1] == w[i + 1] && j[i + 2] == w[i + 2];
        } else if i < m {
          assert j[i] == w[i] && j[m] == ' ';
        } else if i == m {
          assert j[i] == ' ' && j[i + 1] == tail[0];
        } else {
          assert j[i] == tail[i - m - 1] && j[i + 1] == tail[i - m] && j[i + 2] == tail[i - m + 1];
        }
      }
    }
  }

  /** The filter keeps order: it works piecewise. */
  lemma {:induction false} RemoveStopWordsConcat(a: seq<string>, b: seq<string>, stopWords: set<string>)
    ensures RemoveStopWords(a + b, stopWords) == RemoveStopWords(a, stopWords) + RemoveStopWords(b, stopWords)
  {
    if a == [] {
      assert a + b == b;
    } else {
      assert (a + b)[1..] == a[1..] + b;
      RemoveStopWordsConcat(a[1..], b, stopWords);
    }
  }

  /** Tokens that are no stop words all stay. */
  lemma {:induction false} RemoveStopWordsNone(tokens: seq<string>, stopWords: set<string>)
    requires forall i :: 0 <= i < |tokens| ==> tokens[i] !in stopWords
    ensures RemoveStopWords(tokens, stopWords) == tokens
  {
    if tokens != [] {
      RemoveStopWordsNone(tokens[1..], stopWords);
    }
  }

  // ---------------------------------------------------------------- what process_text returns

  /** The text after steps 3 to 6. */
  function Standardised(text: string): string {
    CollapseRuns(KeepWhitelisted(RemoveTags(RemoveUrls(text))))
  }

  /** What `process_text` promises of each token it returns. */
  predicate CleanToken(t: string, stopWords: set<string>) {
    && t != []
    && (forall k :: 0 <= k < |t| ==> TokenChar(t[k]))
    && NoTripleRun(t)
    && t !in stopWords
  }

  /** Steps 7 and 8 only re-split the text: the tokens are the blank-separated words left
      after step 6, minus the stop words, in order. */
  lemma CleanTextWords(text: string, stopWords: set<string>)
    ensures CleanText(text, stopWords) == RemoveStopWords(Words(Standardised(text)), stopWords)
  {
    WordsJoinSpace(Words(Standardised(text)));
  }

  lemma StandardisedKept(text: string)
    ensures forall k :: 0 <= k < |Standardised(text)| ==> Kept(Standardised(text)[k])
    ensures NoTripleRun(Standardised(text))
  {
    var letters := KeepWhitelisted(RemoveTags(RemoveUrls(text)));
    var standard := CollapseRuns(letters);
    forall k | 0 <= k < |standard|
      ensures Kept(standard[k])
    {
      assert standard[k] in letters;
    }
    CollapseNoTriple(letters);
  }

  /** Every token is non-empty, made of `a`-`z` and Devanagari, holds no triple and is no
      stop word. */
  lemma CleanTextTokens(text: string, stopWords: set<string>)
    ensures var tokens := CleanText(text, stopWords);
            forall i :: 0 <= i < |tokens| ==> CleanToken(tokens[i], stopWords)
  {
    var standard := Standardised(text);
    StandardisedKept(text);
    var ws := Words(standard);
    WordsTokenChars(standard);
    WordsNoTriple(standard);
    CleanTextWords(text, stopWords);
    var tokens := CleanText(text, stopWords);
    forall i | 0 <= i < |tokens|
      ensures CleanToken(tokens[i], stopWords)
    {
      assert tokens[i] in ws;
      var j :| 0 <= j < |ws| && ws[j] == tokens[i];
    }
  }

  /** Blank-joined clean tokens hold no `:`, `.`, `@`, `#`, character outside the whitelist or
      triple, so steps 3 to 6 leave them alone. */
  lemma StandardisedJoined(tokens: seq<string>, stopWords: set<string>)
    requires forall i :: 0 <= i < |tokens| ==> CleanToken(tokens[i], stopWords)
    ensures Standardised(JoinSpace(tokens)) == JoinSpace(tokens)
  {
    var j := JoinSpace(tokens);
    JoinSpaceChars(tokens, TokenChar);
    assert forall k :: 0 <= k < |j| ==> j[k] == ' ' || TokenChar(j[k]);
    RemoveUrlsNone(j);
    RemoveTagsNone(j);
    KeepAllKept(j);
    assert forall i :: 0 <= i < |tokens| ==> IsWord(tokens[i]) && NoTripleRun(tokens[i]);
    JoinSpaceNoTriple(tokens);
    CollapseIdentity(j);
  }

  /** Cleaning blank-joined clean tokens gives them back. */
  lemma CleanJoinedTokens(tokens: seq<string>, stopWords: set<string>)
    requires forall i :: 0 <= i < |tokens| ==> CleanToken(tokens[i], stopWords)
    ensures CleanText(JoinSpace(tokens), stopWords) == tokens
  {
    StandardisedJoined(tokens, stopWords);
    CleanTextWords(JoinSpace(tokens), stopWords);
    assert forall i :: 0 <= i < |tokens| ==> IsWord(tokens[i]);
    WordsJoinSpace(tokens);
    RemoveStopWordsNone(tokens, stopWords);
  }

  /** Cleaning the blank-joined tokens again gives the same tokens. */
  lemma CleanTextIdempotent(text: string, stopWords: set<string>)
    ensures var tokens := CleanText(text, stopWords);
            CleanText(JoinSpace(tokens), stopWords) == tokens
  {
    CleanTextTokens(text, stopWords);
    CleanJoinedTokens(CleanText(text, stopWords), stopWords);
  }

  /** The same for `process_text`, for an HTML parser that leaves plain blank-joined words alone. */
  lemma ProcessTextIdempotent(getText: string -> string, stopWords: set<string>, s: string)
    requires var tokens := ProcessText(getText, stopWords, Text(s)).tokens;
             getText(JoinSpace(tokens)) == JoinSpace(tokens)
    ensures var tokens := ProcessText(getText, stopWords, Text(s)).tokens;
            ProcessText(getText, stopWords, Text(JoinSpace(tokens))) == TokenList(tokens)
  {
    var text := getText(Lower(s));
    var tokens := CleanText(text, stopWords);
    CleanTextTokens(text, stopWords);
    var j := JoinSpace(tokens);
    JoinSpaceChars(tokens, TokenChar);
    LowerIdentity(j);
    CleanJoinedTokens(tokens, stopWords);
  }

  // ---------------------------------------------------------------- clean_twitter_data

  /** The column `clean_twitter_data` adds. */
  const CLEANED_TOKENS: string := "cleaned_tokens"

  /** `column.apply(process_text)`. */
  function ApplyProcessText(getText: string -> string, stopWords: set<string>, column: seq<Cell>): (r: seq<Cell>)
    ensures |r| == |column|
    ensures forall i :: 0 <= i < |r| ==> r[i] == ProcessText(getText, stopWords, column[i])
  {
    if column == [] then []
    else [ProcessText(getText, stopWords, column[0])] + ApplyProcessText(getText, stopWords, column[1..])
  }

  /** A data frame: named columns of one height, in order. */
  class DataFrame {
    var columns: seq<string>
    var data: map<string, seq<Cell>>
    var height: nat

    ghost predicate Valid()
      reads this
    {
      && (forall c :: c in data <==> c in columns)
      && (forall i, j :: 0 <= i < j < |columns| ==> columns[i] != columns[j])
      && (forall c :: c in data ==> |data[c]| == height)
    }

    constructor (columns: seq<string>, data: map<string, seq<Cell>>, height: nat)
      ensures this.columns == columns && this.data == data && this.height == height
    {
      this.columns := columns;
      this.data := data;
      this.height := height;
    }

    /** `df.copy()`: a new frame with the same columns and cells. */
    method Copy() returns (d: DataFrame)
      requires Valid()
      ensures fresh(d) && d.Valid()
      ensures d.columns == columns && d.data == data && d.height == height
    {
      d := new DataFrame(columns, data, height);
    }

    /** `df[name] = values`: the column is replaced where it stands, or appended. */
    method SetColumn(name: string, values: seq<Cell>)
      requires Valid() && |values| == height
      modifies this
      ensures Valid()
      ensures columns == if name in old(columns) then old(columns) else old(columns) + [name]
      ensures data == old(data)[name := values] && height == old(height)
    {
      if name !in columns {
        columns := columns + [name];
      }
      data := data[name := values];
    }
  }

  /** `clean_twitter_data(df, text_column)`: `None` stands for the `KeyError` a missing text
      column raises. The input frame is left alone; the copy gets a `cleaned_tokens` column
      holding `process_text` of each row's text cell, and nothing else changes. */
  method CleanTwitterData(df: DataFrame, textColumn: string, getText: string -> string, stopWords: set<string>)
    returns (r: Option<DataFrame>)
    requires df.Valid()
    ensures unchanged(df)
    ensures r.None? <==> textColumn !in df.data
    ensures r.Some? ==> fresh(r.value) && r.value.Valid() && r.value.height == df.height
    ensures r.Some? ==>
              r.value.data == df.data[CLEANED_TOKENS := ApplyProcessText(getText, stopWords, df.data[textColumn])]
    ensures r.Some? ==>
              r.value.columns == if CLEANED_TOKENS in df.columns then df.columns else df.columns + [CLEANED_TOKENS]
  {
    var cleanDf := df.Copy();
    if textColumn !in cleanDf.data {
      return None;
    }
    var cleaned := ApplyProcessText(getText, stopWords, cleanDf.data[textColumn]);
    cleanDf.SetColumn(CLEANED_TOKENS, cleaned);
    return Some(cleanDf);
  }
}
