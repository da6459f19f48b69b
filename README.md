# Social-Media-Analytics: the tweet scraper, the count converter and the tweet cleaner

This project models the three core steps of the Social-Media-Analytics pipeline and proves properties of each.

- **The zomato tweet spider (`zomato_spider.py`).**
  - It filters the browser's requests.
  - It scrolls an X search page and reads each tweet article into an item with these fields: id, URL, author, text, likes, retweets and hashtags.
  - It skips ids it has seen, including ids loaded from an earlier output file.
  - It stops at 200 items, or after three consecutive scrolls that show articles but nothing new.
- **The CSV converter's `clean_engagement_count` (`convert_to_csv.py`).**
  - It turns like and retweet strings such as `16K` or `1.2M` into integers.
  - Anything `int()` rejects becomes 0.
  - A `k`/`m` string that `float()` rejects makes the call raise.
- **The tweet cleaner (`twt_data_cleaner.py`).**
  - `process_text` runs nine steps: lower-case, strip HTML, remove URLs, remove mentions and hashtags, keep only `a`-`z`, Devanagari and blanks, cut letter runs to two, squeeze blanks, tokenise, drop stop words.
  - `clean_twitter_data` copies a frame and adds a `cleaned_tokens` column to the copy.

Files:

- `py_str.dfy` (module `PyStr`): the Python string built-ins these scripts use, with their round-trip lemmas. These are `isspace`, `lower`, `strip`, `split(sep)`, `split()`, `' '.join`, substring search, `startswith` and `replace(c, '')`.
- `spider_fields.dfy` (`SpiderFields`): the request filter and the readers of the permalink, the retweet count and the hashtags.
- `zomato_spider.dfy` (`ZomatoSpider`) holds three things:
  - the functional specification of `parse`'s two loops;
  - the lemmas about it;
  - the class `Spider`, whose fields `seen_tweet_ids` and `scraped_items_count` are updated by the imperative `Parse`. `Parse` is proved to end in the state the specification computes.
- `convert_to_csv.dfy` (`ConvertToCsv`): `clean_engagement_count` on exact decimals, with round-trip and branch lemmas.
- `engagement_examples.dfy` (`EngagementExamples`): worked examples, starting with the docstring's `16K` and `1.2M`.
- `twt_data_cleaner.dfy` (`TwtDataCleaner`) holds three things:
  - `process_text` as a composition of string functions;
  - the properties of that pipeline (what each token looks like, idempotence, URLs and tags contributing nothing);
  - a `DataFrame` class with `Copy` and `SetColumn`, and the method `CleanTwitterData`.

The browser is a parameter. The spider's input is the sequence of article snapshots that `query_selector_all` returns on each pass. The HTML parser (`BeautifulSoup(...).get_text()`) is the function parameter `getText`. The stop-word corpus is the parameter `stopWords`.

## Model

| member | source | states |
|---|---|---|
| SpiderFields.ShouldAbortRequest | twitter_scraper/twitter_scraper/spiders/zomato_spider.py:7-12 | a request is aborted exactly when its resource type is image, stylesheet, font or media, or its URL contains one of the three tracking domains |
| SpiderFields.ParsePermalink | twitter_scraper/twitter_scraper/spiders/zomato_spider.py:85-88 | fails exactly when the href has fewer than three `/`; otherwise the author starts with `@` and holds no `/`, the id holds no `/` or `?`, and the URL is the href on `https://x.com` |
| SpiderFields.StatusLinkFields | twitter_scraper/twitter_scraper/spiders/zomato_spider.py:85-88 | for `/<user>/status/<rest>` the author is `@<user>` and the id is the longest prefix of `<rest>` free of `/` and `?` |
| SpiderFields.StatusLinkParts | twitter_scraper/twitter_scraper/spiders/zomato_spider.py:85 | how `split('/')` cuts a status link |
| SpiderFields.FirstDigit | twitter_scraper/twitter_scraper/spiders/zomato_spider.py:102 | the index of the first character `\d` matches (any Unicode decimal digit, not only `0`-`9`), or none exactly when the text holds no such digit |
| SpiderFields.RetweetCount | twitter_scraper/twitter_scraper/spiders/zomato_spider.py:99-104 | always a non-empty string of decimal digits; `'0'` when there is no label or the label holds no decimal digit |
| SpiderFields.RetweetCountReadsFirstNumber | twitter_scraper/twitter_scraper/spiders/zomato_spider.py:101-104 | a label made of a prefix free of decimal digits in any script, then a `\d[\d,]*` number, then a rest that does not continue it yields that number with its commas removed |
| SpiderFields.FirstDigitAfter | twitter_scraper/twitter_scraper/spiders/zomato_spider.py:102 | the search skips a prefix free of decimal digits in any script and stops at the first digit |
| SpiderFields.ArabicIndicLabel | twitter_scraper/twitter_scraper/spiders/zomato_spider.py:101-104 | the label `"٣٤ reposts"` yields `"٣٤"`: Arabic-Indic digits are read like ASCII ones |
| SpiderFields.HashtagLinks | twitter_scraper/twitter_scraper/spiders/zomato_spider.py:106 | keeps only link texts that start with `#`, all taken from the links; empty exactly when no link starts with `#` |
| SpiderFields.Hashtags | twitter_scraper/twitter_scraper/spiders/zomato_spider.py:106-118 | `None` exactly when there is no hashtag link, otherwise a non-empty list of `#` texts |
| SpiderFields.HashtagLinksConcat | twitter_scraper/twitter_scraper/spiders/zomato_spider.py:106 | the filter keeps order (it distributes over concatenation) |
| SpiderFields.HashtagLinksMembers | twitter_scraper/twitter_scraper/spiders/zomato_spider.py:106 | a text is kept if and only if it is a link text that starts with `#` |
| ZomatoSpider.Extract | twitter_scraper/twitter_scraper/spiders/zomato_spider.py:77-119 | an item is yielded exactly when the article has a permalink with at least four `/`-parts, its id is unseen, and it has a text element; the item is well formed, its id unseen, and it carries the article's text and hashtags |
| ZomatoSpider.YieldedArticle | twitter_scraper/twitter_scraper/spiders/zomato_spider.py:85-119 | for such an article the item is `tweet_id` and `author` from the permalink, `tweet_url` as `"https://x.com"` plus the href, the text, the likes text or `'0'`, the retweet number read from the label, and the hashtags |
| ZomatoSpider.StatusIdUnique | twitter_scraper/twitter_scraper/spiders/zomato_spider.py:87 | the id a status link carries (its longest prefix without `/` or `?`) is unique |
| ZomatoSpider.YieldedStatusLink | twitter_scraper/twitter_scraper/spiders/zomato_spider.py:85-119 | for `/<user>/status/<rest>` with an unseen id and a text element, the item has that id, the author `@<user>` and the link's URL on x.com |
| ZomatoSpider.Emit | twitter_scraper/twitter_scraper/spiders/zomato_spider.py:107-109 | a yield adds the id to the seen set and nothing else, raises the count by one, and appends the item after the earlier ones |
| ZomatoSpider.ScanFrom | twitter_scraper/twitter_scraper/spiders/zomato_spider.py:72-124 | the `for` loop over one snapshot finds at most one new tweet per article; ScanKeepsConsistent states what it keeps |
| ZomatoSpider.StrikesAfter | twitter_scraper/twitter_scraper/spiders/zomato_spider.py:129-135 | the empty-scroll count grows by at most one per pass and is 0 after a pass that found something or saw no article |
| ZomatoSpider.Passes | twitter_scraper/twitter_scraper/spiders/zomato_spider.py:68-135 | the `while` loop reads at most one snapshot per pass; PassesLog, PassesNoEarlyStop and PassesLastStop state its stopping rule |
| ZomatoSpider.Crawl | twitter_scraper/twitter_scraper/spiders/zomato_spider.py:68-135 | a whole run from zero strikes reads at most one snapshot per pass; CrawlStopRule states its stopping rule |
| ZomatoSpider.ScanSkip | twitter_scraper/twitter_scraper/spiders/zomato_spider.py:81-94 | (unfolding step of `ScanFrom`) an article that yields nothing leaves the `for` loop's state alone |
| ZomatoSpider.ScanEmit | twitter_scraper/twitter_scraper/spiders/zomato_spider.py:107-122 | (unfolding step of `ScanFrom`) a yield updates seen set, count and output, and breaks the `for` loop once the count reaches the limit |
| ZomatoSpider.IdSet | twitter_scraper/twitter_scraper/spiders/zomato_spider.py:107 | the set of the ids of the yielded items, both directions |
| ZomatoSpider.EmitKeepsConsistent | twitter_scraper/twitter_scraper/spiders/zomato_spider.py:107-119 | yielding a well-formed unseen tweet keeps the invariant: count equals items, ids distinct and not from the earlier file, seen set is earlier ids plus yielded ids |
| ZomatoSpider.ScanKeepsConsistent | twitter_scraper/twitter_scraper/spiders/zomato_spider.py:73-124 | one snapshot's scan keeps the invariant, stays within the limit, only appends, and `new_tweets_found_this_scroll` counts exactly the items yielded |
| ZomatoSpider.PassesKeepConsistent | twitter_scraper/twitter_scraper/spiders/zomato_spider.py:69-135 | a whole run keeps the invariant, stays within the limit, only appends, and the count grows by the items found |
| ZomatoSpider.CrawlYieldsFreshIds | twitter_scraper/twitter_scraper/spiders/zomato_spider.py:18-22 | from the constructor state, a run yields at most 200 items with distinct ids, none from the earlier file, all recorded as seen |
| ZomatoSpider.PassesLog | twitter_scraper/twitter_scraper/spiders/zomato_spider.py:69-73 | one log entry per snapshot read, in order; no entry if and only if the limit was already reached or there was no snapshot |
| ZomatoSpider.PassesNoEarlyStop | twitter_scraper/twitter_scraper/spiders/zomato_spider.py:121-135 | no pass before the last reached the limit or made the third consecutive empty scroll |
| ZomatoSpider.PassesLastStop | twitter_scraper/twitter_scraper/spiders/zomato_spider.py:126-133 | the last pass reached the limit, made the third consecutive empty scroll, or used the last snapshot |
| ZomatoSpider.CrawlStopRule | twitter_scraper/twitter_scraper/spiders/zomato_spider.py:68-135 | the whole stopping rule of `parse`, from an empty-scroll count of 0 |
| ZomatoSpider.PassesStep | twitter_scraper/twitter_scraper/spiders/zomato_spider.py:69-135 | (unfolding step of `Passes`) one turn of the `while` loop: stop at the limit or the third strike, otherwise continue with the updated strike count |
| ZomatoSpider.ScanOfStale | twitter_scraper/twitter_scraper/spiders/zomato_spider.py:73-124 | a snapshot of articles that all yield nothing changes nothing |
| ZomatoSpider.SkippedArticle | twitter_scraper/twitter_scraper/spiders/zomato_spider.py:81-94 | an article without a permalink, with a short permalink, a seen id or no text is as if absent |
| ZomatoSpider.StaleSnapshotsEndRun | twitter_scraper/twitter_scraper/spiders/zomato_spider.py:129-133 | three scrolls of the same stale articles end the run, whatever follows |
| ZomatoSpider.BlankSnapshotsNeverStop | twitter_scraper/twitter_scraper/spiders/zomato_spider.py:129-135 | passes with no articles never count as empty scrolls: the run reads every snapshot |
| ZomatoSpider.Spider.constructor | twitter_scraper/twitter_scraper/spiders/zomato_spider.py:18-32 | count 0, no item yet, seen set preloaded with the earlier ids, invariant established |
| ZomatoSpider.Spider.Record | twitter_scraper/twitter_scraper/spiders/zomato_spider.py:107-119 | the seen set gains the id, the count goes up by one, the item is yielded, the invariant is kept |
| ZomatoSpider.Spider.ScanArticles | twitter_scraper/twitter_scraper/spiders/zomato_spider.py:72-124 | the imperative `for` loop ends in the state and count the specification `ScanFrom` computes |
| ZomatoSpider.Spider.Parse | twitter_scraper/twitter_scraper/spiders/zomato_spider.py:68-135 | the imperative `while` loop ends in the state the specification `Crawl` computes, keeping the invariant |
| ConvertToCsv.ShowNat | twitter_scraper/convert_to_csv.py:17 | decimal notation without leading zeros whose digit value is the number |
| ConvertToCsv.ShowInt | twitter_scraper/convert_to_csv.py:17 | `str(i)` is never empty; ShowIntShape and ParseIntShowInt give its shape and round trip |
| ConvertToCsv.TruncDiv | twitter_scraper/convert_to_csv.py:13-15 | `int()` of a float truncates toward zero, for both signs |
| ConvertToCsv.ParseIntChars | twitter_scraper/convert_to_csv.py:16-17 | a stripped string that `int()` accepts holds only a leading sign and digits |
| ConvertToCsv.ParseInt | twitter_scraper/convert_to_csv.py:17 | an accepted literal is not blank after stripping, and a negative value comes from a leading `-` |
| ConvertToCsv.ParseFloat | twitter_scraper/convert_to_csv.py:13-15 | an accepted literal is not blank after stripping, and a negative reading comes from a leading `-` |
| ConvertToCsv.NormalShape | twitter_scraper/convert_to_csv.py:11 | `value.lower().strip()` holds no ASCII capital and neither starts nor ends with whitespace |
| ConvertToCsv.ParseUnsigned | twitter_scraper/convert_to_csv.py:13-15 | an unsigned `float()` literal denotes a non-negative decimal |
| ConvertToCsv.Scaled | twitter_scraper/convert_to_csv.py:13-15 | raises exactly when `float()` rejects the rest; otherwise the decimal times the factor, truncated toward zero |
| ConvertToCsv.CleanEngagementCount | twitter_scraper/convert_to_csv.py:6-19 | integers pass through, a missing value gives 0, a `k` string is read as thousands before the `m` test, an `m` string as millions, any other string gives its `int()` value or 0 when `int()` refuses it; only the `k`/`m` branches raise |
| ConvertToCsv.ShowIntShape | twitter_scraper/convert_to_csv.py:16-17 | `str(i)` is a sign and digits |
| ConvertToCsv.NumeralNormal | twitter_scraper/convert_to_csv.py:11 | lower-casing and stripping leave a numeral alone |
| ConvertToCsv.NumeralMarks | twitter_scraper/convert_to_csv.py:12-14 | a numeral holds no suffix letter |
| ConvertToCsv.ParseIntShowInt | twitter_scraper/convert_to_csv.py:17 | `int(str(i)) == i` |
| ConvertToCsv.ParseFloatShowInt | twitter_scraper/convert_to_csv.py:13 | `float(str(i))` is the whole number `i` |
| ConvertToCsv.IntegerRoundTrip | twitter_scraper/convert_to_csv.py:6-19 | the string of an integer converts back to that integer |
| ConvertToCsv.WithSuffix | twitter_scraper/convert_to_csv.py:11-13 | a numeral followed by `k`/`K`/`m`/`M` normalises to the numeral and the lower-case letter, and `replace` gives back the numeral |
| ConvertToCsv.ThousandsBranch | twitter_scraper/convert_to_csv.py:12-13 | (unfolding step) the `k` branch reads the rest as thousands |
| ConvertToCsv.MillionsBranch | twitter_scraper/convert_to_csv.py:14-15 | (unfolding step) the `m` branch reads the rest as millions |
| ConvertToCsv.ThousandsOf | twitter_scraper/convert_to_csv.py:12-13 | a numeral then `k`/`K` gives its value times 1000, truncated toward zero |
| ConvertToCsv.MillionsOf | twitter_scraper/convert_to_csv.py:14-15 | a numeral then `m`/`M` gives its value times 1000000, truncated toward zero |
| ConvertToCsv.TruncDivWhole | twitter_scraper/convert_to_csv.py:13 | (arithmetic step) a whole number needs no rounding |
| ConvertToCsv.ThousandsRoundTrip | twitter_scraper/convert_to_csv.py:12-13 | `<i>k` and `<i>K` are `i * 1000` |
| ConvertToCsv.MillionsRoundTrip | twitter_scraper/convert_to_csv.py:14-15 | `<i>m` and `<i>M` are `i * 1000000` |
| ConvertToCsv.DigitsValueConcat | twitter_scraper/convert_to_csv.py:13-17 | digits after digits shift the first by the length of the second |
| ConvertToCsv.NumeralConcat | twitter_scraper/convert_to_csv.py:13 | numerals are closed under concatenation |
| ConvertToCsv.FractionNumeralIsNumeral | twitter_scraper/convert_to_csv.py:13 | `[-]<a>.<f>` is a numeral |
| ConvertToCsv.FractionStripped | twitter_scraper/convert_to_csv.py:11 | `[-]<a>.<f>` is stripped |
| ConvertToCsv.FractionSign | twitter_scraper/convert_to_csv.py:13 | the sign of `[-]<a>.<f>` reads correctly |
| ConvertToCsv.ParseUnsignedFraction | twitter_scraper/convert_to_csv.py:13 | `<a>.<f>` denotes `a * 10^|f| + f` at scale `|f|` |
| ConvertToCsv.ParseFloatSigned | twitter_scraper/convert_to_csv.py:13 | (unfolding step) `float()` applies the sign to the unsigned reading |
| ConvertToCsv.ParseFloatFraction | twitter_scraper/convert_to_csv.py:13 | `float()` reads `[-]<a>.<f>` exactly |
| ConvertToCsv.DecimalThousands | twitter_scraper/convert_to_csv.py:12-13 | `[-]<a>.<f>k` is that decimal times 1000, truncated toward zero |
| ConvertToCsv.DecimalMillions | twitter_scraper/convert_to_csv.py:14-15 | `[-]<a>.<f>m` is that decimal times 1000000, truncated toward zero |
| ConvertToCsv.CaseIgnored | twitter_scraper/convert_to_csv.py:11 | a string and its lower-case form give the same outcome |
| ConvertToCsv.NormalisationInvariance | twitter_scraper/convert_to_csv.py:11 | normalising first changes nothing |
| ConvertToCsv.IntegerBranch | twitter_scraper/convert_to_csv.py:16-19 | without a `k` or `m`, the result is the `int()` value of the normal form, or 0 when `int()` refuses it |
| ConvertToCsv.NoIntegerLiteral | twitter_scraper/convert_to_csv.py:16-19 | a stripped string holding `.` or `,`, or the empty string, is refused by `int()` |
| ConvertToCsv.NotIntegerLiteral | twitter_scraper/convert_to_csv.py:16-19 | without a suffix, a string with `.` or `,` or nothing but blanks gives 0 |
| ConvertToCsv.ThousandsError | twitter_scraper/convert_to_csv.py:12-13 | in the `k` branch a rest that `float()` refuses raises `ValueError` |
| EngagementExamples.ThousandsExample | twitter_scraper/convert_to_csv.py:12-13 | `<i>k`/`<i>K` is `i * 1000` |
| EngagementExamples.DecimalExample | twitter_scraper/convert_to_csv.py:12-15 | `[-]<a>.<f>` with a suffix is the decimal times the factor, truncated |
| EngagementExamples.SixteenThousand | twitter_scraper/convert_to_csv.py:7-9 | `16K` is 16000 |
| EngagementExamples.OnePointTwoMillion | twitter_scraper/convert_to_csv.py:7-9 | `1.2M` is 1200000 |
| EngagementExamples.TruncatesPositive | twitter_scraper/convert_to_csv.py:13 | `1.2345k` is 1234 |
| EngagementExamples.TruncatesNegative | twitter_scraper/convert_to_csv.py:13 | `-0.0005k` is 0 (toward zero, not down) |
| ConvertToCsv.SameNormalForm | twitter_scraper/convert_to_csv.py:11 | strings with the same normal form give the same outcome |
| EngagementExamples.PaddedLowerCase | twitter_scraper/convert_to_csv.py:11-13 | `" 16k "` is 16000 |
| EngagementExamples.OnlySuffixRaises | twitter_scraper/convert_to_csv.py:12-13 | any string whose normal form is a lone `k` raises, since `float('')` fails |
| EngagementExamples.DecimalWithoutSuffixIsZero | twitter_scraper/convert_to_csv.py:16-19 | `1.5` gives 0 |
| EngagementExamples.CommaIsZero | twitter_scraper/convert_to_csv.py:16-19 | `1,234` gives 0 |
| EngagementExamples.EmptyIsZero | twitter_scraper/convert_to_csv.py:16-19 | the empty string and a missing value give 0 |
| EngagementExamples.BareSuffixRaises | twitter_scraper/convert_to_csv.py:12-13 | `k` raises |
| EngagementExamples.LettersBeforeSuffixRaise | twitter_scraper/convert_to_csv.py:12-13 | `abck` raises |
| EngagementExamples.UnsignedWithoutPoint | twitter_scraper/convert_to_csv.py:13 | without a `.` only digits are an unsigned literal |
| EngagementExamples.NotFloat | twitter_scraper/convert_to_csv.py:13 | an unsigned string whose reading fails is no `float()` literal |
| EngagementExamples.ThousandsTestedFirst | twitter_scraper/convert_to_csv.py:12-15 | `2mk` loses only its `k`, and `2m` raises |
| PyStr.LowerIdempotent | twt_data_cleaner.py:25 | lower-casing twice is lower-casing once |
| PyStr.Lower | twitter_scraper/convert_to_csv.py:11 | the same length, and each character lower-cased on its own |
| PyStr.WhitespaceChars | twitter_scraper/convert_to_csv.py:11 | the blanks `strip()` and `split()` remove are exactly the 29 characters for which `str.isspace()` holds |
| PyStr.LStrip | twitter_scraper/convert_to_csv.py:11 | the result is a suffix of the input that starts with a non-blank, or is empty |
| PyStr.RStrip | twitter_scraper/convert_to_csv.py:11 | the result is a prefix of the input that ends with a non-blank, or is empty |
| PyStr.Strip | twitter_scraper/convert_to_csv.py:11 | the result starts and ends with a non-blank, or is empty |
| PyStr.LowerIdentity | twt_data_cleaner.py:25 | a string without capitals is its own lower case |
| PyStr.StripIdentity | twitter_scraper/convert_to_csv.py:11 | a string with non-blank ends is stripped |
| PyStr.StripIdempotent | twitter_scraper/convert_to_csv.py:11 | stripping twice is stripping once |
| PyStr.LowerOfStrip | twitter_scraper/convert_to_csv.py:11 | lower-casing and stripping commute |
| PyStr.Find | twitter_scraper/twitter_scraper/spiders/zomato_spider.py:10 | substring search, both directions |
| PyStr.CountZero | twitter_scraper/twitter_scraper/spiders/zomato_spider.py:85 | the count is 0 exactly when the character does not occur |
| PyStr.Count | twitter_scraper/twitter_scraper/spiders/zomato_spider.py:85 | never more than the length |
| PyStr.RemoveChar | twitter_scraper/convert_to_csv.py:13 | after `replace(c, '')` no `c` remains, the length drops by the number of `c`s, and every other character stays |
| PyStr.RemoveCharAbsent | twitter_scraper/convert_to_csv.py:13 | `replace` of an absent character changes nothing |
| PyStr.RemoveCharConcat | twitter_scraper/convert_to_csv.py:13 | `replace` works piecewise |
| PyStr.SplitCount | twitter_scraper/twitter_scraper/spiders/zomato_spider.py:85 | `split(sep)` yields one more part than there are separators |
| PyStr.Split | twitter_scraper/twitter_scraper/spiders/zomato_spider.py:85 | at least one part, and no part holds the separator |
| PyStr.SplitJoin | twitter_scraper/twitter_scraper/spiders/zomato_spider.py:85 | joining the parts gives the string back |
| PyStr.SplitHead | twitter_scraper/twitter_scraper/spiders/zomato_spider.py:87 | the first part is the prefix before the first separator |
| PyStr.SplitAfterPart | twitter_scraper/twitter_scraper/spiders/zomato_spider.py:85 | a separator-free part then the separator splits off |
| PyStr.SplitNoSeparator | twitter_scraper/twitter_scraper/spiders/zomato_spider.py:87 | without a separator there is one part |
| PyStr.JoinSplit | twitter_scraper/twitter_scraper/spiders/zomato_spider.py:85 | splitting a join of separator-free parts gives the parts back |
| PyStr.LeadingRun | twitter_scraper/twitter_scraper/spiders/zomato_spider.py:102 | the longest prefix satisfying the predicate |
| PyStr.LeadingRunConcat | twitter_scraper/twitter_scraper/spiders/zomato_spider.py:102 | a run that ends inside the first piece is unaffected by the second |
| PyStr.LeadingRunAll | twitter_scraper/twitter_scraper/spiders/zomato_spider.py:102 | a string that satisfies the predicate throughout is one run |
| PyStr.Words | twt_data_cleaner.py:44 | `split()` gives non-empty blank-free words |
| PyStr.WordsOfWord | twt_data_cleaner.py:44 | a single word, possibly followed by blanks, splits to itself |
| PyStr.WordsJoinSpace | twt_data_cleaner.py:44 | `' '.join` of words then `split()` gives the words back |
| PyStr.JoinSpaceChars | twt_data_cleaner.py:44 | a space-joined string holds only blanks and the words' characters |
| PyStr.JoinSpace | twt_data_cleaner.py:44 | `' '.join` of blank-free words puts exactly one space between neighbours: one fewer space than words |
| TwtDataCleaner.DropMatches | twt_data_cleaner.py:31-34 | a left-to-right `re.sub(..., '')` scan never lengthens the text |
| TwtDataCleaner.PrefixedRun | twt_data_cleaner.py:31 | `<prefix>\S+` matches exactly when the prefix is followed by a non-blank, and takes all the non-blanks after it |
| TwtDataCleaner.UrlMatch | twt_data_cleaner.py:31 | the match at the front is no longer than the text |
| TwtDataCleaner.RemoveUrls | twt_data_cleaner.py:31 | never lengthens the text; RemoveUrlsConcat, RemoveUrlsNone and UrlContributesNothing state what it removes |
| TwtDataCleaner.TagMatch | twt_data_cleaner.py:34 | the match `[@#][A-Za-z0-9_]+` at the front is no longer than the text |
| TwtDataCleaner.RemoveTags | twt_data_cleaner.py:34 | never lengthens the text; RemoveTagsConcat, RemoveTagsNone and TagContributesNothing state what it removes |
| TwtDataCleaner.KeepWhitelisted | twt_data_cleaner.py:38 | keeps exactly the characters in `[a-zऀ-ॿ\s]`, and only those |
| TwtDataCleaner.KeepWhitelistedConcat | twt_data_cleaner.py:38 | step 5 works piecewise, so every kept occurrence stays, in order |
| TwtDataCleaner.KeepWhitelistedChar | twt_data_cleaner.py:38 | a single character is kept exactly when it is in the class |
| TwtDataCleaner.Run | twt_data_cleaner.py:41 | the maximal run of one character at the front |
| TwtDataCleaner.CollapseRuns | twt_data_cleaner.py:41 | never lengthens, keeps the first characters, adds no new character |
| TwtDataCleaner.SqueezeSpaces | twt_data_cleaner.py:43-44 | the words are unchanged, the only blank left is the plain space, blank-only text becomes empty, and otherwise there is exactly one space between neighbouring words and none at either end (as many spaces as words less one) |
| TwtDataCleaner.WordTokenize | twt_data_cleaner.py:47 | every token is a non-empty blank-free word |
| TwtDataCleaner.RemoveStopWords | twt_data_cleaner.py:50 | no stop word remains, and a token is kept if and only if it is no stop word |
| TwtDataCleaner.ProcessText | twt_data_cleaner.py:19-52 | a string gives a token list, any other value gives `""` |
| TwtDataCleaner.CleanText | twt_data_cleaner.py:31-50 | every token is a non-empty blank-free word and no stop word; CleanTextTokens and CleanTextWords state the rest |
| TwtDataCleaner.DropMatchesConcat | twt_data_cleaner.py:31-34 | the scan works piecewise when no match starting in the first piece reaches into the second |
| TwtDataCleaner.DropMatchesNone | twt_data_cleaner.py:31-34 | a text with no match anywhere is unchanged |
| TwtDataCleaner.DropMatchesWhole | twt_data_cleaner.py:31-34 | a match covering a whole first piece is dropped |
| TwtDataCleaner.RemoveUrlsConcat | twt_data_cleaner.py:31 | URL removal works piecewise at a blank |
| TwtDataCleaner.RemoveUrlsBlank | twt_data_cleaner.py:31 | (unfolding step) a blank never starts a URL |
| TwtDataCleaner.RemoveUrlsNone | twt_data_cleaner.py:31 | a text without `:` and `.` is unchanged |
| TwtDataCleaner.UrlContributesNothing | twt_data_cleaner.py:31 | a URL between blanks is removed whole |
| TwtDataCleaner.TagMatchConcat | twt_data_cleaner.py:34 | a tag ending before a non-word character is unaffected by what follows |
| TwtDataCleaner.RemoveTagsConcat | twt_data_cleaner.py:34 | tag removal works piecewise before a non-word character |
| TwtDataCleaner.RemoveTagsNone | twt_data_cleaner.py:34 | a text without `@` and `#` is unchanged |
| TwtDataCleaner.TagContributesNothing | twt_data_cleaner.py:34 | a mention or hashtag not followed by a word character is removed whole |
| TwtDataCleaner.TagKeptByUrls | twt_data_cleaner.py:31-34 | URL removal leaves a tag after a blank alone, so step 4 sees it |
| TwtDataCleaner.UrlsAndTagsContributeNothing | twt_data_cleaner.py:31-50 | a URL, mention or hashtag between blanks leaves the tokens unchanged |
| TwtDataCleaner.KeepAllKept | twt_data_cleaner.py:38 | whitelisted text passes step 5 unchanged |
| TwtDataCleaner.CollapseNoTriple | twt_data_cleaner.py:41 | after step 6 no character other than a newline occurs three times in a row |
| TwtDataCleaner.CollapseIdentity | twt_data_cleaner.py:41 | a text without such a triple is unchanged |
| TwtDataCleaner.CollapseIdempotent | twt_data_cleaner.py:41 | step 6 twice is step 6 once |
| TwtDataCleaner.WordsTokenChars | twt_data_cleaner.py:38-47 | the words of whitelisted text are made of `a`-`z` and Devanagari |
| TwtDataCleaner.WordsNoTriple | twt_data_cleaner.py:41-47 | words inherit the absence of triples |
| TwtDataCleaner.JoinSpaceNoTriple | twt_data_cleaner.py:44 | words without triples joined by single blanks hold no triple |
| TwtDataCleaner.RemoveStopWordsConcat | twt_data_cleaner.py:50 | the filter keeps order |
| TwtDataCleaner.RemoveStopWordsNone | twt_data_cleaner.py:50 | tokens that are not stop words all stay |
| TwtDataCleaner.CleanTextWords | twt_data_cleaner.py:41-50 | steps 7 and 8 only re-split: the tokens are the words after step 6 minus the stop words, in order |
| TwtDataCleaner.StandardisedKept | twt_data_cleaner.py:31-41 | after steps 3 to 6 only whitelisted characters remain, with no triple |
| TwtDataCleaner.CleanTextTokens | twt_data_cleaner.py:31-52 | every token is non-empty, made of `a`-`z` and Devanagari, has no triple and is no stop word |
| TwtDataCleaner.StandardisedJoined | twt_data_cleaner.py:31-41 | steps 3 to 6 leave blank-joined clean tokens alone |
| TwtDataCleaner.CleanJoinedTokens | twt_data_cleaner.py:31-50 | cleaning blank-joined clean tokens gives them back |
| TwtDataCleaner.CleanTextIdempotent | twt_data_cleaner.py:31-52 | cleaning is idempotent on the blank-joined result |
| TwtDataCleaner.ProcessTextIdempotent | twt_data_cleaner.py:19-52 | `process_text` of the blank-joined tokens gives the same tokens back, for an HTML parser that leaves plain text alone |
| TwtDataCleaner.ApplyProcessText | twt_data_cleaner.py:55 | `apply`: the same length, and each cell is `process_text` of the input cell |
| TwtDataCleaner.DataFrame.Copy | twt_data_cleaner.py:13 | a fresh frame with the same columns, cells and height |
| TwtDataCleaner.DataFrame.SetColumn | twt_data_cleaner.py:55 | the column is replaced where it stands or appended; every other column is unchanged |
| TwtDataCleaner.CleanTwitterData | twt_data_cleaner.py:7-58 | a `KeyError` exactly when the text column is missing; otherwise a fresh valid copy whose `cleaned_tokens` column holds `process_text` of each text cell, nothing else changed, the input frame untouched |

## Left out

- Scrapy and Playwright plumbing (`start_requests`, `errback`, and `parse`'s `wait_for_selector`, screenshots, scrolling, timeouts and `page.close`). The page is the parameter `snapshots`, and the initial wait is assumed to succeed.
- The reading of the earlier output file in `__init__` (`pd.read_csv`, `astype(str)`, the logged errors). The constructor takes the set of ids it would load; the empty set stands for a missing or unreadable file.
- Browser calls inside the `for` body are assumed not to raise. The only exception modelled is the `IndexError` of `parts[3]` on a short permalink, which the `except` clause swallows.
- ZomatoSpider.Parse: the source keeps polling while the page shows no articles; the model stops when the finite list of snapshots runs out.
- Logging and `print` calls are left out; they have no effect on data.
- ConvertToCsv.CleanEngagementCount: binary floating point is not modelled. `float()` is read as an exact decimal, and the product is truncated exactly. In IEEE doubles many short inputs round below the exact product: `4.1m` gives 4099999 in the source and 4100000 here, `32.3k` gives 32299 against 32300, and `1.005k` gives 1004 against 1005; for `a` below 1000, about 0.5% of the strings `<a>.<d>k` and 1% of the strings `<a>.<d>m` differ this way. A rest so large that the double product is infinite (beyond about 1.8e305 for `k`, 1.8e302 for `m`) makes `int()` raise OverflowError in the source, while the model returns a Number. Scaled, ThousandsOf, MillionsOf, ParseFloatFraction, DecimalThousands, DecimalMillions and DecimalExample state the exact value, not the double one.
- ConvertToCsv.ParseFloat: accepts sign, digits and one optional `.`. Exponents, `inf`/`nan`, underscores and non-ASCII digits are not modelled; `int()` (ConvertToCsv.ParseInt) likewise reads ASCII digits only, without underscores. The retweet reader's `\d` does cover every Unicode decimal digit.
- ConvertToCsv.CleanEngagementCount: the value kinds are string, integer and missing. Other types that `int()` would accept, such as floats and booleans, are not modelled.
- The module-level script of the converter is left out: reading JSON, applying the function to the columns, writing CSV, and the commented-out steps.
- PyStr.Lower: lower-cases ASCII letters only. Python's full Unicode case mapping is not modelled.
- TwtDataCleaner.WordTokenize: NLTK's `word_tokenize` is modelled as a split at blanks. After step 5 only `a`-`z`, Devanagari and blanks remain, so its punctuation and quote rules have nothing to act on, but its contraction rules still do: the words `cannot`, `gimme`, `gonna`, `gotta`, `lemme` and `wanna`, standing alone or glued after a Devanagari vowel sign or virama (where `\b` also fires), are each split into two tokens (`gonna` gives `gon`, `na`; `कीgonna` gives `की`, `gon`, `na`), and the model keeps them whole. TwtDataCleaner.CleanTextWords, TwtDataCleaner.CleanTextTokens, TwtDataCleaner.CleanTextIdempotent and TwtDataCleaner.ProcessTextIdempotent are statements about the split-at-blanks tokeniser.
- TwtDataCleaner.ProcessText: `BeautifulSoup(...).get_text()` is the parameter `getText`, and the NLTK English stop-word list is the parameter `stopWords`.
- The cleaner's demonstration script is left out: it downloads NLTK data, reads and writes CSV, and builds the `cleaned_text_str` column.
- The other scripts of the repository (the YouTube and Reddit collectors and the relational loader) are not part of this model.
