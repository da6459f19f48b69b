/** The pure helpers of the tweet spider: the request filter installed on the page route,
    and the readers that turn one tweet article's permalink, retweet button and text links
    into record fields. */
module SpiderFields {
  import opened PyStr

  // ---------------------------------------------------------------- request filter

  /** Resource types the page route refuses to load. */
  const BLOCKED_RESOURCE_TYPES: set<string> := {"image", "stylesheet", "font", "media"}

  /** `should_abort_request`: a request is dropped exactly when its resource type is blocked or
      its URL mentions one of the three tracking domains anywhere. */
  function ShouldAbortRequest(resourceType: string, url: string): (abort: bool)
    ensures abort <==> resourceType in BLOCKED_RESOURCE_TYPES
                       || Contains(url, "google-analytics.com")
                       || Contains(url, "googlesyndication.com")
                       || Contains(url, "doubleclick.net")
  {
    if resourceType in BLOCKED_RESOURCE_TYPES then true
    else Find(url, "google-analytics.com") || Find(url, "googlesyndication.com") || Find(url, "doubleclick.net")
  }

  // ---------------------------------------------------------------- permalink

  datatype Permalink = Permalink(author: string, tweetId: string, tweetUrl: string)

  /** Splits a status link `href` on `/`: the author is `@` and the second part, the id is the
      fourth part cut at its first `?`, the URL is the link on the x.com origin. Fewer than four
      parts raise IndexError in the source, which its `except` swallows: `None` here. */
  function ParsePermalink(href: string): (r: Option<Permalink>)
    ensures r.None? <==> Count(href, '/') < 3
    ensures r.Some? ==> r.value.tweetUrl == "https://x.com" + href
    ensures r.Some? ==> HasPrefix(r.value.author, "@") && '/' !in r.value.author
    ensures r.Some? ==> '/' !in r.value.tweetId && '?' !in r.value.tweetId
  {
    var parts := Split(href, '/');
    SplitCount(href, '/');
    if |parts| < 4 then None
    else
      var id := Split(parts[3], '?')[0];
      SplitHead(parts[3], '?');
      assert '/' !in id by {
        assert id == parts[3][..|id|];
        forall k | 0 <= k < |id| ensures id[k] != '/' {
          assert id[k] == parts[3][k];
          assert parts[3][k] in parts[3];
        }
      }
      Some(Permalink("@" + parts[1], id, "https://x.com" + href))
  }

  /** For a link `/<user>/status/<rest>` the author is `@<user>` and the id is the longest
      prefix of `<rest>` that holds neither `/` nor `?`. */
  lemma StatusLinkFields(user: string, rest: string)
    requires '/' !in user
    ensures var r := ParsePermalink("/" + user + "/status/" + rest);
            && r.Some?
            && r.value.author == "@" + user
            && r.value.tweetUrl == "https://x.com/" + user + "/status/" + rest
            && HasPrefix(rest, r.value.tweetId)
            && '/' !in r.value.tweetId && '?' !in r.value.tweetId
            && (|r.value.tweetId| == |rest| || rest[|r.value.tweetId|] == '/' || rest[|r.value.tweetId|] == '?')
  {
    var href := "/" + user + "/status/" + rest;
    StatusLinkParts(user, rest);
    var seg := Split(rest, '/')[0];
    SplitHead(rest, '/');
    SplitHead(seg, '?');
    var id := Split(seg, '?')[0];
    assert rest[..|id|] == id by {
      assert rest[..|seg|] == seg;
      assert seg[..|id|] == id;
      assert rest[..|id|] == rest[..|seg|][..|id|];
    }
    if |id| < |seg| {
      assert rest[|id|] == seg[|id|];
    }
    assert "https://x.com" + href == "https://x.com/" + user + "/status/" + rest;
  }

  lemma StatusLinkParts(user: string, rest: string)
    requires '/' !in user
    ensures Split("/" + user + "/status/" + rest, '/') == [[], user, "status"] + Split(rest, '/')
  {
    var tail := "status/" + rest;
    StatusTailParts(rest);
    UserParts(user, tail);
    var mid := user + "/" + tail;
    SplitAfterPart([], '/', mid);
    assert [] + ['/'] + mid == "/" + user + "/status/" + rest;
  }

  lemma StatusTailParts(rest: string)
    ensures Split("status/" + rest, '/') == ["status"] + Split(rest, '/')
  {
    SplitAfterPart("status", '/', rest);
    assert "status" + ['/'] + rest == "status/" + rest;
  }

  lemma UserParts(user: string, tail: string)
    requires '/' !in user
    ensures Split(user + "/" + tail, '/') == [user] + Split(tail, '/')
  {
    SplitAfterPart(user, '/', tail);
  }

  // ---------------------------------------------------------------- retweet count

  /** The regular-expression class `\d` on text: every Unicode decimal digit (general
      category Nd, Unicode 15.0), which is ASCII `0`-`9` and 63 further ranges. */
  predicate IsDecimalDigit(c: char) {
       ('0' <= c <= '9') || ('\U{660}' <= c <= '\U{669}') || ('\U{6f0}' <= c <= '\U{6f9}') || ('\U{7c0}' <= c <= '\U{7c9}')
    || ('\U{966}' <= c <= '\U{96f}') || ('\U{9e6}' <= c <= '\U{9ef}') || ('\U{a66}' <= c <= '\U{a6f}') || ('\U{ae6}' <= c <= '\U{aef}')
    || ('\U{b66}' <= c <= '\U{b6f}') || ('\U{be6}' <= c <= '\U{bef}') || ('\U{c66}' <= c <= '\U{c6f}') || ('\U{ce6}' <= c <= '\U{cef}')
    || ('\U{d66}' <= c <= '\U{d6f}') || ('\U{de6}' <= c <= '\U{def}') || ('\U{e50}' <= c <= '\U{e59}') || ('\U{ed0}' <= c <= '\U{ed9}')
    || ('\U{f20}' <= c <= '\U{f29}') || ('\U{1040}' <= c <= '\U{1049}') || ('\U{1090}' <= c <= '\U{1099}') || ('\U{17e0}' <= c <= '\U{17e9}')
    || ('\U{1810}' <= c <= '\U{1819}') || ('\U{1946}' <= c <= '\U{194f}') || ('\U{19d0}' <= c <= '\U{19d9}') || ('\U{1a80}' <= c <= '\U{1a89}')
    || ('\U{1a90}' <= c <= '\U{1a99}') || ('\U{1b50}' <= c <= '\U{1b59}') || ('\U{1bb0}' <= c <= '\U{1bb9}') || ('\U{1c40}' <= c <= '\U{1c49}')
    || ('\U{1c50}' <= c <= '\U{1c59}') || ('\U{a620}' <= c <= '\U{a629}') || ('\U{a8d0}' <= c <= '\U{a8d9}') || ('\U{a900}' <= c <= '\U{a909}')
    || ('\U{a9d0}' <= c <= '\U{a9d9}') || ('\U{a9f0}' <= c <= '\U{a9f9}') || ('\U{aa50}' <= c <= '\U{aa59}') || ('\U{abf0}' <= c <= '\U{abf9}')
    || ('\U{ff10}' <= c <= '\U{ff19}') || ('\U{104a0}' <= c <= '\U{104a9}') || ('\U{10d30}' <= c <= '\U{10d39}') || ('\U{11066}' <= c <= '\U{1106f}')
    || ('\U{110f0}' <= c <= '\U{110f9}') || ('\U{11136}' <= c <= '\U{1113f}') || ('\U{111d0}' <= c <= '\U{111d9}') || ('\U{112f0}' <= c <= '\U{112f9}')
    || ('\U{11450}' <= c <= '\U{11459}') || ('\U{114d0}' <= c <= '\U{114d9}') || ('\U{11650}' <= c <= '\U{11659}') || ('\U{116c0}' <= c <= '\U{116c9}')
    || ('\U{11730}' <= c <= '\U{11739}') || ('\U{118e0}' <= c <= '\U{118e9}') || ('\U{11950}' <= c <= '\U{11959}') || ('\U{11c50}' <= c <= '\U{11c59}')
    || ('\U{11d50}' <= c <= '\U{11d59}') || ('\U{11da0}' <= c <= '\U{11da9}') || ('\U{11f50}' <= c <= '\U{11f59}') || ('\U{16a60}' <= c <= '\U{16a69}')
    || ('\U{16ac0}' <= c <= '\U{16ac9}') || ('\U{16b50}' <= c <= '\U{16b59}') || ('\U{1d7ce}' <= c <= '\U{1d7ff}') || ('\U{1e140}' <= c <= '\U{1e149}')
    || ('\U{1e2f0}' <= c <= '\U{1e2f9}') || ('\U{1e4f0}' <= c <= '\U{1e4f9}') || ('\U{1e950}' <= c <= '\U{1e959}') || ('\U{1fbf0}' <= c <= '\U{1fbf9}')
  }

  predicate AllDecimalDigits(s: string) { forall i :: 0 <= i < |s| ==> IsDecimalDigit(s[i]) }

  predicate IsDigitOrComma(c: char) { IsDecimalDigit(c) || c == ',' }

  /** Index of the first digit, if any. */
  function FirstDigit(s: string): (r: Option<nat>)
    ensures r.None? <==> forall i :: 0 <= i < |s| ==> !IsDecimalDigit(s[i])
    ensures r.Some? ==> r.value < |s| && IsDecimalDigit(s[r.value])
                        && forall i :: 0 <= i < r.value ==> !IsDecimalDigit(s[i])
  {
    if s == [] then None
    else if IsDecimalDigit(s[0]) then Some(0)
    else match FirstDigit(s[1..])
      case None => None
      case Some(i) => Some(i + 1)
  }

  /** The retweet count read from the retweet button's `aria-label`: the first match of
      `\d[\d,]*` with its commas removed, `'0'` when there is no label or no digit in it. */
  function RetweetCount(ariaLabel: Option<string>): (retweets: string)
    ensures retweets != [] && AllDecimalDigits(retweets)
    ensures (ariaLabel.None? || forall i :: 0 <= i < |ariaLabel.value| ==> !IsDecimalDigit(ariaLabel.value[i])) ==> retweets == "0"
  {
    if ariaLabel.None? || ariaLabel.value == [] then "0"
    else match FirstDigit(ariaLabel.value)
      case None => "0"
      case Some(i) =>
        var from := ariaLabel.value[i..];
        var run := from[..LeadingRun(from, IsDigitOrComma)];
        assert run[0] in run && run[0] != ',';
        var r := RemoveChar(run, ',');
        assert AllDecimalDigits(r) by {
          forall k | 0 <= k < |r| ensures IsDecimalDigit(r[k]) {
            assert r[k] in run && r[k] != ',';
            var j :| 0 <= j < |run| && run[j] == r[k];
          }
        }
        r
  }

  /** A label made of a digit-free prefix, a number written with digits and commas, and a
      remainder that does not continue the number, yields that number without its commas. */
  lemma RetweetCountReadsFirstNumber(pre: string, num: string, post: string)
    requires forall i :: 0 <= i < |pre| ==> !IsDecimalDigit(pre[i])
    requires num != [] && IsDecimalDigit(num[0])
    requires forall i :: 0 <= i < |num| ==> IsDigitOrComma(num[i])
    requires post == [] || !IsDigitOrComma(post[0])
    ensures RetweetCount(Some(pre + num + post)) == RemoveChar(num, ',')
  {
    var ariaLabel := pre + num + post;
    assert ariaLabel == pre + (num + post);
    FirstDigitAfter(pre, num + post);
    RetweetCountAt(ariaLabel, |pre|);
    assert ariaLabel[|pre|..] == num + post;
    RunOfNumber(num, post);
  }

  /** The count read from a label whose first digit is at `i`. */
  lemma RetweetCountAt(ariaLabel: string, i: nat)
    requires FirstDigit(ariaLabel) == Some(i)
    ensures var from := ariaLabel[i..];
            RetweetCount(Some(ariaLabel)) == RemoveChar(from[..LeadingRun(from, IsDigitOrComma)], ',')
  {
  }

  /** The digits-and-commas run at the start of `num + post` is `num`. */
  lemma RunOfNumber(num: string, post: string)
    requires forall i :: 0 <= i < |num| ==> IsDigitOrComma(num[i])
    requires post == [] || !IsDigitOrComma(post[0])
    ensures (num + post)[..LeadingRun(num + post, IsDigitOrComma)] == num
  {
    LeadingRunConcat(num, post, IsDigitOrComma);
    LeadingRunAll(num, IsDigitOrComma);
  }

  /** A label written in Arabic-Indic digits is read like any other: `"٣٤ reposts"` gives `"٣٤"`. */
  lemma ArabicIndicLabel(num: string, post: string)
    requires num == "\U{663}\U{664}" && post == " reposts"
    ensures RetweetCount(Some(num + post)) == num
  {
    RetweetCountReadsFirstNumber([], num, post);
    assert [] + num + post == num + post;
    RemoveCharAbsent(num, ',');
  }

  lemma {:induction false} FirstDigitAfter(pre: string, s: string)
    requires forall i :: 0 <= i < |pre| ==> !IsDecimalDigit(pre[i])
    requires s != [] && IsDecimalDigit(s[0])
    ensures FirstDigit(pre + s) == Some(|pre|)
  {
    if pre != [] {
      assert (pre + s)[1..] == pre[1..] + s;
      FirstDigitAfter(pre[1..], s);
    }
  }

  // ---------------------------------------------------------------- hashtags

  /** `(text or '').startswith('#')` for a link's text. */
  predicate IsHashtagText(t: string) { t != [] && t[0] == '#' }

  /** The texts of the links that start with `#`, in their original order. */
  function HashtagLinks(links: seq<string>): (tags: seq<string>)
    ensures |tags| <= |links|
    ensures forall i :: 0 <= i < |tags| ==> IsHashtagText(tags[i]) && tags[i] in links
    ensures tags == [] <==> forall i :: 0 <= i < |links| ==> !IsHashtagText(links[i])
  {
    if links == [] then []
    else
      var rest := HashtagLinks(links[1..]);
      assert forall t :: t in links[1..] ==> t in links;
      if IsHashtagText(links[0]) then [links[0]] + rest else rest
  }

  /** The `hashtags` field: the hashtag link texts, or `None` when there are none. */
  function Hashtags(links: seq<string>): (r: Option<seq<string>>)
    ensures r.None? <==> forall i :: 0 <= i < |links| ==> !IsHashtagText(links[i])
    ensures r.Some? ==> r.value != [] && forall i :: 0 <= i < |r.value| ==> IsHashtagText(r.value[i])
  {
    var tags := HashtagLinks(links);
    if tags == [] then None else Some(tags)
  }

  /** The filter keeps order: it distributes over concatenation. */
  lemma {:induction false} HashtagLinksConcat(a: seq<string>, b: seq<string>)
    ensures HashtagLinks(a + b) == HashtagLinks(a) + HashtagLinks(b)
  {
    if a == [] {
      assert a + b == b;
    } else {
      assert (a + b)[1..] == a[1..] + b;
      HashtagLinksConcat(a[1..], b);
    }
  }

  /** A text is kept exactly when it is one of the links and starts with `#`. */
  lemma {:induction false} HashtagLinksMembers(links: seq<string>, t: string)
    ensures t in HashtagLinks(links) <==> t in links && IsHashtagText(t)
  {
    if links != [] {
      HashtagLinksMembers(links[1..], t);
      assert t in links <==> t == links[0] || t in links[1..];
    }
  }
}
