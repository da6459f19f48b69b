/** The tweet-harvesting loop of the zomato spider.

    The page is abstracted as the list of article snapshots the loop would read, one per
    scroll: `snapshots[k]` is what `query_selector_all('article[data-testid="tweet"]')` returns on
    the k-th pass. `ScanFrom` specifies the inner `for` over one snapshot, `Passes` the outer
    `while`, and `Spider.Parse` runs both loops imperatively on the spider's fields and is proved
    to end in the state the specification computes. */
module ZomatoSpider {
  import opened PyStr
  import opened SpiderFields

  /** `ZomatoSpiderSpider.TWEET_LIMIT`. */
  const TWEET_LIMIT: nat := 200
  /** Consecutive passes without a new tweet after which a batch ends. */
  const MAX_EMPTY_SCROLLS: nat := 3

  /** One tweet article as the page presents it to the selectors. */
  datatype Element = Element(
    permalink: Option<string>,     // href of the first `a[href*="/status/"]`, None when there is none
    text: Option<string>,          // inner text of `div[data-testid="tweetText"]`, None when absent
    linkTexts: seq<string>,        // inner texts of the links inside that div
    retweetLabel: Option<string>,  // aria-label of the retweet button, None without button or label
    likes: Option<string>)         // text of the like counter span, None when absent

  /** One yielded item. */
  datatype Tweet = Tweet(tweetId: string, tweetUrl: string, author: string, text: string,
                         likes: string, retweets: string, hashtags: Option<seq<string>>)

  /** The shape every yielded item has. */
  predicate WellFormed(t: Tweet) {
    && '/' !in t.tweetId && '?' !in t.tweetId
    && HasPrefix(t.author, "@")
    && HasPrefix(t.tweetUrl, "https://x.com")
    && t.retweets != [] && AllDecimalDigits(t.retweets)
    && (t.hashtags.Some? ==> t.hashtags.value != []
                             && forall i :: 0 <= i < |t.hashtags.value| ==> IsHashtagText(t.hashtags.value[i]))
  }

  /** What one turn of the `for` body yields for an article, given the ids seen so far: nothing
      when the article has no permalink, a permalink with fewer than four `/`-parts, an id
      already seen, or no text element. */
  function Extract(el: Element, seen: set<string>): (r: Option<Tweet>)
    ensures r.Some? ==> WellFormed(r.value) && r.value.tweetId !in seen
    ensures r.Some? ==> el.text == Some(r.value.text) && r.value.hashtags == Hashtags(el.linkTexts)
    ensures r.Some? <==> && el.permalink.Some?
                         && ParsePermalink(el.permalink.value).Some?
                         && ParsePermalink(el.permalink.value).value.tweetId !in seen
                         && el.text.Some?
  {
    if el.permalink.None? || el.permalink.value == [] then None
    else match ParsePermalink(el.permalink.value)
      case None => None
      case Some(link) =>
        if link.tweetId in seen || el.text.None? then None
        else Some(Tweet(link.tweetId, link.tweetUrl, link.author, el.text.value,
                        if el.likes.Some? then el.likes.value else "0",
                        RetweetCount(el.retweetLabel), Hashtags(el.linkTexts)))
  }

  /** An article with a permalink of at least four `/`-parts, an unseen id and a text element
      is yielded, with the id, URL and author read from the permalink, the text, the likes
      counter's text or `'0'` without one, the retweet number read from the label, and the
      hashtag links. */
  lemma YieldedArticle(el: Element, seen: set<string>, href: string, link: Permalink, text: string)
    requires el.permalink == Some(href) && ParsePermalink(href) == Some(link)
    requires link.tweetId !in seen && el.text == Some(text)
    ensures Extract(el, seen).Some?
    ensures var t := Extract(el, seen).value;
            && t.tweetId == link.tweetId && t.tweetUrl == "https://x.com" + href && t.author == link.author
            && t.text == text
            && t.likes == (if el.likes.Some? then el.likes.value else "0")
            && t.retweets == RetweetCount(el.retweetLabel)
            && t.hashtags == Hashtags(el.linkTexts)
  {
  }

  /** The id a status link's tail `<rest>` carries: its longest prefix without `/` or `?`. */
  predicate StatusId(rest: string, id: string) {
    && HasPrefix(rest, id) && '/' !in id && '?' !in id
    && (|id| == |rest| || rest[|id|] == '/' || rest[|id|] == '?')
  }

  /** Of two ids of one tail, neither is longer than the other. */
  lemma StatusIdLength(rest: string, a: string, b: string)
    requires StatusId(rest, a) && StatusId(rest, b)
    ensures |b| <= |a|
  {
    if |a| < |b| {
      assert false;
    }
  }

  /** A tail carries one id only. */
  lemma StatusIdUnique(rest: string, a: string, b: string)
    requires StatusId(rest, a) && StatusId(rest, b)
    ensures a == b
  {
    StatusIdLength(rest, a, b);
    StatusIdLength(rest, b, a);
  }

  /** For a status link `/<user>/status/<rest>` whose id is unseen, and a text element, the
      item yielded has the id of `<rest>`, the author `@<user>` and the URL of the link on
      x.com. */
  lemma YieldedStatusLink(el: Element, seen: set<string>, user: string, rest: string, id: string)
    requires '/' !in user && el.permalink == Some("/" + user + "/status/" + rest) && el.text.Some?
    requires StatusId(rest, id) && id !in seen
    ensures Extract(el, seen).Some?
    ensures Extract(el, seen).value.tweetId == id
    ensures Extract(el, seen).value.author == "@" + user
    ensures Extract(el, seen).value.tweetUrl == "https://x.com/" + user + "/status/" + rest
  {
    StatusLinkFields(user, rest);
    StatusIdUnique(rest, ParsePermalink(el.permalink.value).value.tweetId, id);
  }

  /** The scraping state: `seen_tweet_ids`, `scraped_items_count` and the items yielded. */
  datatype SpiderState = SpiderState(seen: set<string>, count: nat, emitted: seq<Tweet>)

  /** The three updates the source makes when it yields `t`. */
  function Emit(st: SpiderState, t: Tweet): (r: SpiderState)
    ensures t.tweetId in r.seen && st.seen <= r.seen && r.seen - st.seen <= {t.tweetId}
    ensures r.count == st.count + 1
    ensures st.emitted <= r.emitted && r.emitted[|st.emitted|..] == [t]
  {
    SpiderState(st.seen + {t.tweetId}, st.count + 1, st.emitted + [t])
  }

  // ---------------------------------------------------------------- the inner `for`

  datatype Scan = Scan(state: SpiderState, found: nat)

  /** The `for` loop over one snapshot, from the state `st` with `found` new tweets so far:
      each article either is skipped or is yielded, and the loop breaks right after the
      yield that brings the count to the limit. */
  function ScanFrom(st: SpiderState, els: seq<Element>, found: nat): (r: Scan)
    ensures found <= r.found <= found + |els|
    decreases |els|
  {
    if els == [] then Scan(st, found)
    else match Extract(els[0], st.seen)
      case None => ScanFrom(st, els[1..], found)
      case Some(t) =>
        var next := Emit(st, t);
        if next.count >= TWEET_LIMIT then Scan(next, found + 1)
        else ScanFrom(next, els[1..], found + 1)
  }

  /** One turn of the `for` body that skips its article. */
  lemma ScanSkip(st: SpiderState, els: seq<Element>, found: nat)
    requires els != [] && Extract(els[0], st.seen).None?
    ensures ScanFrom(st, els, found) == ScanFrom(st, els[1..], found)
  {
  }

  /** One turn of the `for` body that yields `t`, breaking when the limit is reached. */
  lemma ScanEmit(st: SpiderState, els: seq<Element>, found: nat, t: Tweet)
    requires els != [] && Extract(els[0], st.seen) == Some(t)
    ensures Emit(st, t).count >= TWEET_LIMIT ==> ScanFrom(st, els, found) == Scan(Emit(st, t), found + 1)
    ensures Emit(st, t).count < TWEET_LIMIT ==> ScanFrom(st, els, found) == ScanFrom(Emit(st, t), els[1..], found + 1)
  {
  }

  // ---------------------------------------------------------------- the outer `while`

  /** One pass of the `while` loop: how many articles it saw, how many new tweets it yielded,
      and the item count after it. */
  datatype Pass = Pass(articles: nat, found: nat, countAfter: nat)

  /** A pass that saw articles but found nothing new: the only kind that counts as a strike. */
  predicate EmptyPass(p: Pass) { p.articles > 0 && p.found == 0 }

  /** `empty_scroll_attempts` after the passes of `log`, starting from `strikes`: one more
      after an empty pass, back to 0 after any other pass. */
  function StrikesAfter(strikes: nat, log: seq<Pass>): (r: nat)
    ensures r <= strikes + |log|
    ensures log != [] && !EmptyPass(log[|log| - 1]) ==> r == 0
    decreases |log|
  {
    if log == [] then strikes
    else StrikesAfter(if EmptyPass(log[0]) then strikes + 1 else 0, log[1..])
  }

  function FoundTotal(log: seq<Pass>): nat {
    if log == [] then 0 else log[0].found + FoundTotal(log[1..])
  }

  lemma FoundTotalCons(p: Pass, log: seq<Pass>)
    ensures FoundTotal([p] + log) == p.found + FoundTotal(log)
  {
    assert ([p] + log)[1..] == log;
  }

  lemma StrikesAfterCons(strikes: nat, p: Pass, log: seq<Pass>)
    ensures StrikesAfter(strikes, [p] + log) == StrikesAfter(if EmptyPass(p) then strikes + 1 else 0, log)
  {
    assert ([p] + log)[1..] == log;
  }

  datatype Run = Run(state: SpiderState, log: seq<Pass>)

  /** The `while` loop from state `st` with `strikes` empty scrolls so far, over the remaining
      snapshots: the final state and the log of the passes made. The loop ends at the limit, on
      the third consecutive empty pass, or when the snapshots run out. */
  function Passes(st: SpiderState, strikes: nat, snaps: seq<seq<Element>>): (r: Run)
    ensures |r.log| <= |snaps|
    decreases |snaps|
  {
    if st.count >= TWEET_LIMIT || snaps == [] then Run(st, [])
    else
      var scan := ScanFrom(st, snaps[0], 0);
      var pass := Pass(|snaps[0]|, scan.found, scan.state.count);
      var strikes' := if EmptyPass(pass) then strikes + 1 else 0;
      if scan.state.count >= TWEET_LIMIT || strikes' >= MAX_EMPTY_SCROLLS then Run(scan.state, [pass])
      else
        var rest := Passes(scan.state, strikes', snaps[1..]);
        Run(rest.state, [pass] + rest.log)
  }

  /** A whole scrape run of `parse`, which starts with no empty scrolls. */
  function Crawl(st: SpiderState, snaps: seq<seq<Element>>): (r: Run)
    ensures |r.log| <= |snaps|
  {
    Passes(st, 0, snaps)
  }

  // ---------------------------------------------------------------- the invariant

  function IdSet(ts: seq<Tweet>): (ids: set<string>)
    ensures forall i :: 0 <= i < |ts| ==> ts[i].tweetId in ids
    ensures forall x :: x in ids ==> exists i :: 0 <= i < |ts| && ts[i].tweetId == x
  {
    if ts == [] then {} else IdSet(ts[..|ts| - 1]) + {ts[|ts| - 1].tweetId}
  }

  ghost predicate DistinctIds(ts: seq<Tweet>) {
    forall i, j :: 0 <= i < j < |ts| ==> ts[i].tweetId != ts[j].tweetId
  }

  /** What holds of the state at every point of a run started from the ids `prior` loaded from
      an earlier output file: the count is the number of items yielded, no id is yielded twice
      or was in `prior`, every item is well formed, and the seen set is `prior` plus the ids
      yielded. */
  ghost predicate Consistent(prior: set<string>, st: SpiderState) {
    && st.count == |st.emitted|
    && DistinctIds(st.emitted)
    && (forall i :: 0 <= i < |st.emitted| ==> st.emitted[i].tweetId !in prior && WellFormed(st.emitted[i]))
    && st.seen == prior + IdSet(st.emitted)
  }

  /** Yielding a well-formed tweet whose id is not yet seen keeps the invariant. */
  lemma EmitKeepsConsistent(prior: set<string>, st: SpiderState, t: Tweet)
    requires Consistent(prior, st)
    requires t.tweetId !in st.seen && WellFormed(t)
    ensures Consistent(prior, Emit(st, t))
    ensures st.emitted <= Emit(st, t).emitted
  {
    var e := st.emitted + [t];
    assert e[..|e| - 1] == st.emitted;
    assert IdSet(e) == IdSet(st.emitted) + {t.tweetId};
  }

  /** What a scan from `st` that had found `found` new items promises of its result `r`: the
      invariant holds, the limit is not passed, the output was only appended to, and `r.found`
      counts exactly the items added. */
  ghost predicate ScanKept(prior: set<string>, st: SpiderState, found: nat, r: Scan) {
    && Consistent(prior, r.state)
    && r.state.count <= TWEET_LIMIT
    && st.emitted <= r.state.emitted
    && r.found == found + (r.state.count - st.count)
  }

  /** What the rest of the scan keeps after a yield, the whole scan keeps. */
  lemma ScanKeptAfterEmit(prior: set<string>, st: SpiderState, t: Tweet, found: nat, r: Scan)
    requires st.emitted <= Emit(st, t).emitted
    requires ScanKept(prior, Emit(st, t), found + 1, r)
    ensures ScanKept(prior, st, found, r)
  {
  }

  /** One snapshot's scan keeps the invariant, never passes the limit, only appends, and
      counts in `found` exactly the items it yields. */
  lemma {:induction false} ScanKeepsConsistent(prior: set<string>, st: SpiderState, els: seq<Element>, found: nat)
    requires Consistent(prior, st) && st.count < TWEET_LIMIT
    decreases |els|
    ensures ScanKept(prior, st, found, ScanFrom(st, els, found))
  {
    if els != [] {
      match Extract(els[0], st.seen)
      case None =>
        ScanSkip(st, els, found);
        ScanKeepsConsistent(prior, st, els[1..], found);
      case Some(t) =>
        ScanEmit(st, els, found, t);
        EmitKeepsConsistent(prior, st, t);
        var next := Emit(st, t);
        if next.count < TWEET_LIMIT {
          ScanKeepsConsistent(prior, next, els[1..], found + 1);
        } else {
          assert ScanKept(prior, next, found + 1, Scan(next, found + 1));
        }
        ScanKeptAfterEmit(prior, st, t, found, ScanFrom(st, els, found));
    }
  }

  /** A whole run keeps the invariant: ids are never repeated, never taken from the earlier
      file, every yielded id is in the seen set afterwards, and the count stays within the
      limit and only grows by the items yielded. */
  lemma {:induction false} PassesKeepConsistent(prior: set<string>, st: SpiderState, strikes: nat, snaps: seq<seq<Element>>)
    requires Consistent(prior, st) && st.count <= TWEET_LIMIT
    decreases |snaps|
    ensures var r := Passes(st, strikes, snaps);
            && Consistent(prior, r.state)
            && r.state.count <= TWEET_LIMIT
            && st.emitted <= r.state.emitted
            && r.state.count == st.count + FoundTotal(r.log)
  {
    if st.count < TWEET_LIMIT && snaps != [] {
      var scan := ScanFrom(st, snaps[0], 0);
      ScanKeepsConsistent(prior, st, snaps[0], 0);
      var pass := Pass(|snaps[0]|, scan.found, scan.state.count);
      var strikes' := if EmptyPass(pass) then strikes + 1 else 0;
      if scan.state.count < TWEET_LIMIT && strikes' < MAX_EMPTY_SCROLLS {
        PassesKeepConsistent(prior, scan.state, strikes', snaps[1..]);
        var rest := Passes(scan.state, strikes', snaps[1..]);
        FoundTotalCons(pass, rest.log);
      } else {
        FoundTotalCons(pass, []);
        assert [pass] + [] == [pass];
      }
    }
  }

  /** When a run started from the spider's constructor state yields items, they have distinct
      ids, none of them loaded from the earlier output file, and each one is recorded as seen. */
  lemma CrawlYieldsFreshIds(prior: set<string>, snaps: seq<seq<Element>>)
    ensures var r := Crawl(SpiderState(prior, 0, []), snaps).state;
            && r.count == |r.emitted| <= TWEET_LIMIT
            && (forall i, j :: 0 <= i < j < |r.emitted| ==> r.emitted[i].tweetId != r.emitted[j].tweetId)
            && (forall i :: 0 <= i < |r.emitted| ==> r.emitted[i].tweetId !in prior && r.emitted[i].tweetId in r.seen)
  {
    PassesKeepConsistent(prior, SpiderState(prior, 0, []), 0, snaps);
  }

  // ---------------------------------------------------------------- the stopping rule

  /** The log of a run has one entry per snapshot read, in order, and its last entry's count
      is the final count; an empty log means the loop body never ran. */
  lemma {:induction false} PassesLog(st: SpiderState, strikes: nat, snaps: seq<seq<Element>>)
    decreases |snaps|
    ensures var r := Passes(st, strikes, snaps);
            && |r.log| <= |snaps|
            && (forall k :: 0 <= k < |r.log| ==> r.log[k].articles == |snaps[k]|)
            && (r.log == [] <==> st.count >= TWEET_LIMIT || snaps == [])
            && (r.log == [] ==> r.state == st)
            && (r.log != [] ==> r.state.count == r.log[|r.log| - 1].countAfter)
  {
    if st.count < TWEET_LIMIT && snaps != [] {
      var scan := ScanFrom(st, snaps[0], 0);
      var pass := Pass(|snaps[0]|, scan.found, scan.state.count);
      var strikes' := if EmptyPass(pass) then strikes + 1 else 0;
      if scan.state.count < TWEET_LIMIT && strikes' < MAX_EMPTY_SCROLLS {
        var rest := Passes(scan.state, strikes', snaps[1..]);
        PassesLog(scan.state, strikes', snaps[1..]);
        var log := [pass] + rest.log;
        assert Passes(st, strikes, snaps).log == log;
        forall k | 0 <= k < |log| ensures log[k].articles == |snaps[k]| {
          if k > 0 {
            assert log[k] == rest.log[k - 1];
          }
        }
        if rest.log != [] {
          assert log[|log| - 1] == rest.log[|rest.log| - 1];
        }
      }
    }
  }

  /** Every pass of `log` but the last left the count below the limit and, counting from
      `strikes`, fewer than three consecutive empty passes. */
  ghost predicate ContinuedBeforeLast(strikes: nat, log: seq<Pass>) {
    forall k :: 0 <= k < |log| - 1 ==>
      log[k].countAfter < TWEET_LIMIT && StrikesAfter(strikes, log[..k + 1]) < MAX_EMPTY_SCROLLS
  }

  /** No pass but the last reached the limit or made the third consecutive strike: the loop
      stops as soon as either happens. */
  lemma {:induction false} PassesNoEarlyStop(st: SpiderState, strikes: nat, snaps: seq<seq<Element>>)
    requires strikes < MAX_EMPTY_SCROLLS
    decreases |snaps|
    ensures ContinuedBeforeLast(strikes, Passes(st, strikes, snaps).log)
  {
    if st.count < TWEET_LIMIT && snaps != [] {
      var scan := ScanFrom(st, snaps[0], 0);
      var pass := Pass(|snaps[0]|, scan.found, scan.state.count);
      var strikes' := if EmptyPass(pass) then strikes + 1 else 0;
      if scan.state.count < TWEET_LIMIT && strikes' < MAX_EMPTY_SCROLLS {
        var rest := Passes(scan.state, strikes', snaps[1..]);
        PassesNoEarlyStop(scan.state, strikes', snaps[1..]);
        assert Passes(st, strikes, snaps).log == [pass] + rest.log;
        ContinuedCons(strikes, pass, rest.log);
      }
    }
  }

  /** A pass that kept the loop going, followed by a log that continued before its last. */
  lemma ContinuedCons(strikes: nat, pass: Pass, log: seq<Pass>)
    requires pass.countAfter < TWEET_LIMIT
    requires (if EmptyPass(pass) then strikes + 1 else 0) < MAX_EMPTY_SCROLLS
    requires ContinuedBeforeLast(if EmptyPass(pass) then strikes + 1 else 0, log)
    ensures ContinuedBeforeLast(strikes, [pass] + log)
  {
    var strikes' := if EmptyPass(pass) then strikes + 1 else 0;
    var all := [pass] + log;
    forall k | 0 <= k < |all| - 1
      ensures all[k].countAfter < TWEET_LIMIT && StrikesAfter(strikes, all[..k + 1]) < MAX_EMPTY_SCROLLS
    {
      assert all[..k + 1] == [pass] + log[..k];
      StrikesAfterCons(strikes, pass, log[..k]);
      if k == 0 {
        assert log[..0] == [];
      } else {
        assert all[k] == log[k - 1];
        assert log[..k] == log[..(k - 1) + 1];
      }
    }
  }

  /** Why the loop stopped: the last pass reached the limit, made the third consecutive strike,
      or used the last snapshot. */
  lemma {:induction false} PassesLastStop(st: SpiderState, strikes: nat, snaps: seq<seq<Element>>)
    requires strikes < MAX_EMPTY_SCROLLS
    decreases |snaps|
    ensures var r := Passes(st, strikes, snaps);
            r.log != [] ==>
              r.state.count >= TWEET_LIMIT || |r.log| == |snaps| || StrikesAfter(strikes, r.log) == MAX_EMPTY_SCROLLS
  {
    if st.count < TWEET_LIMIT && snaps != [] {
      var scan := ScanFrom(st, snaps[0], 0);
      var pass := Pass(|snaps[0]|, scan.found, scan.state.count);
      var strikes' := if EmptyPass(pass) then strikes + 1 else 0;
      assert StrikesAfter(strikes, [pass]) == strikes' by {
        assert [pass][1..] == [];
      }
      if scan.state.count < TWEET_LIMIT && strikes' < MAX_EMPTY_SCROLLS {
        var rest := Passes(scan.state, strikes', snaps[1..]);
        PassesLastStop(scan.state, strikes', snaps[1..]);
        PassesLog(scan.state, strikes', snaps[1..]);
        var log := [pass] + rest.log;
        assert Passes(st, strikes, snaps).log == log;
        assert log[1..] == rest.log;
      }
    }
  }

  /** The stopping rule of a whole run: one log entry per snapshot read; every pass but the
      last left the count below the limit and fewer than three consecutive strikes; the last
      reached the limit, made the third strike or used the last snapshot; and the count grew by
      exactly the items the passes found. */
  lemma CrawlStopRule(st: SpiderState, snaps: seq<seq<Element>>)
    ensures var r := Crawl(st, snaps);
            && |r.log| <= |snaps|
            && (forall k :: 0 <= k < |r.log| ==> r.log[k].articles == |snaps[k]|)
            && (r.log == [] <==> st.count >= TWEET_LIMIT || snaps == [])
            && ContinuedBeforeLast(0, r.log)
            && (r.log != [] ==>
                  && r.state.count == r.log[|r.log| - 1].countAfter
                  && (r.state.count >= TWEET_LIMIT || |r.log| == |snaps|
                      || StrikesAfter(0, r.log) == MAX_EMPTY_SCROLLS))
  {
    var r := Passes(st, 0, snaps);
    assert Crawl(st, snaps) == r;
    PassesLog(st, 0, snaps);
    PassesNoEarlyStop(st, 0, snaps);
    PassesLastStop(st, 0, snaps);
  }

  /** One turn of the `while` loop, unfolded. */
  lemma PassesStep(st: SpiderState, strikes: nat, snaps: seq<seq<Element>>, next: SpiderState, found: nat)
    requires st.count < TWEET_LIMIT && snaps != [] && ScanFrom(st, snaps[0], 0) == Scan(next, found)
    ensures var strikes' := if found == 0 && |snaps[0]| > 0 then strikes + 1 else 0;
            && (next.count >= TWEET_LIMIT || strikes' >= MAX_EMPTY_SCROLLS ==> Passes(st, strikes, snaps).state == next)
            && (next.count < TWEET_LIMIT && strikes' < MAX_EMPTY_SCROLLS ==>
                  Passes(st, strikes, snaps).state == Passes(next, strikes', snaps[1..]).state)
  {
  }

  /** Articles that yield nothing leave the scan's state and count alone. */
  lemma {:induction false} ScanOfStale(st: SpiderState, els: seq<Element>, found: nat)
    requires forall i :: 0 <= i < |els| ==> Extract(els[i], st.seen).None?
    ensures ScanFrom(st, els, found) == Scan(st, found)
  {
    if els != [] {
      ScanOfStale(st, els[1..], found);
    }
  }

  /** An article without a permalink, with a permalink of fewer than four `/`-parts, with an
      id already seen, or without a text element, is skipped: the seen set, the count and the
      output are exactly as if it were not on the page. */
  lemma SkippedArticle(st: SpiderState, el: Element, rest: seq<Element>, found: nat)
    requires || el.permalink.None?
             || el.text.None?
             || Count(el.permalink.value, '/') < 3
             || (ParsePermalink(el.permalink.value).Some? && ParsePermalink(el.permalink.value).value.tweetId in st.seen)
    ensures ScanFrom(st, [el] + rest, found) == ScanFrom(st, rest, found)
  {
    assert ([el] + rest)[1..] == rest;
    if el.permalink.Some? && el.permalink.value == [] {
      assert Count(el.permalink.value, '/') == 0;
    }
  }

  /** A page that keeps showing the same articles, none of them new, ends the run after three
      scrolls, whatever the later snapshots would have held. */
  lemma StaleSnapshotsEndRun(st: SpiderState, snap: seq<Element>, later: seq<seq<Element>>)
    requires st.count < TWEET_LIMIT && snap != []
    requires forall i :: 0 <= i < |snap| ==> Extract(snap[i], st.seen).None?
    ensures Crawl(st, [snap, snap, snap] + later)
            == Run(st, [Pass(|snap|, 0, st.count), Pass(|snap|, 0, st.count), Pass(|snap|, 0, st.count)])
  {
    ScanOfStale(st, snap, 0);
    var p := Pass(|snap|, 0, st.count);
    var snaps := [snap, snap, snap] + later;
    var snaps1 := [snap, snap] + later;
    var snaps2 := [snap] + later;
    assert snaps[0] == snap && snaps[1..] == snaps1;
    assert snaps1[0] == snap && snaps1[1..] == snaps2;
    assert snaps2[0] == snap;
    assert Passes(st, 2, snaps2) == Run(st, [p]);
    assert Passes(st, 1, snaps1) == Run(st, [p] + [p]);
    assert Passes(st, 0, snaps) == Run(st, [p] + ([p] + [p]));
    assert [p] + ([p] + [p]) == [p, p, p];
  }

  /** A page that shows no articles never earns a strike: the run reads every snapshot and
      yields nothing. */
  lemma {:induction false} BlankSnapshotsNeverStop(st: SpiderState, strikes: nat, snaps: seq<seq<Element>>)
    requires st.count < TWEET_LIMIT && strikes < MAX_EMPTY_SCROLLS
    requires forall k :: 0 <= k < |snaps| ==> snaps[k] == []
    ensures Passes(st, strikes, snaps).state == st
    ensures |Passes(st, strikes, snaps).log| == |snaps|
  {
    if snaps != [] {
      BlankSnapshotsNeverStop(st, 0, snaps[1..]);
    }
  }

  // ---------------------------------------------------------------- the spider object

  class Spider {
    /** The ids read from the earlier output file when the spider was built. */
    ghost const priorIds: set<string>
    var seenTweetIds: set<string>
    var scrapedItemsCount: nat
    /** Everything `parse` has yielded so far. */
    var yielded: seq<Tweet>

    function State(): SpiderState
      reads this
    {
      SpiderState(seenTweetIds, scrapedItemsCount, yielded)
    }

    ghost predicate Valid()
      reads this
    {
      Consistent(priorIds, State()) && scrapedItemsCount <= TWEET_LIMIT
    }

    /** `__init__`: no item scraped yet, and the seen set preloaded with the ids of an earlier
        run (the empty set when there was no readable output file). */
    constructor (existingIds: set<string>)
      ensures Valid() && priorIds == existingIds
      ensures seenTweetIds == existingIds && scrapedItemsCount == 0 && yielded == []
    {
      priorIds := existingIds;
      seenTweetIds := existingIds;
      scrapedItemsCount := 0;
      yielded := [];
    }

    /** Yielding `tweet`: its id is added to the seen set, the count goes up by one and the
        item joins the output. */
    method Record(tweet: Tweet)
      requires Valid() && scrapedItemsCount < TWEET_LIMIT
      requires tweet.tweetId !in seenTweetIds && WellFormed(tweet)
      modifies this
      ensures Valid()
      ensures State() == Emit(old(State()), tweet)
    {
      EmitKeepsConsistent(priorIds, State(), tweet);
      seenTweetIds := seenTweetIds + {tweet.tweetId};
      scrapedItemsCount := scrapedItemsCount + 1;
      yielded := yielded + [tweet];
    }

    /** The `for` loop of `parse` over the articles of one snapshot; returns
        `new_tweets_found_this_scroll`. */
    method ScanArticles(articles: seq<Element>) returns (newTweetsFoundThisScroll: nat)
      requires Valid() && scrapedItemsCount < TWEET_LIMIT
      modifies this
      ensures Valid()
      ensures old(yielded) <= yielded
      ensures Scan(State(), newTweetsFoundThisScroll) == ScanFrom(old(State()), articles, 0)
    {
      ghost var start := State();
      newTweetsFoundThisScroll := 0;
      for j := 0 to |articles|
        invariant Valid() && scrapedItemsCount < TWEET_LIMIT
        invariant start.emitted <= yielded
        invariant ScanFrom(State(), articles[j..], newTweetsFoundThisScroll) == ScanFrom(start, articles, 0)
      {
        var el := articles[j];
        ghost var st := State();
        ghost var rest := articles[j..];
        assert rest != [] && rest[0] == el && rest[1..] == articles[j + 1..];
        if el.permalink.None? || el.permalink.value == [] {
          ScanSkip(st, rest, newTweetsFoundThisScroll);
          continue;
        }
        var link := ParsePermalink(el.permalink.value);
        if link.None? {
          ScanSkip(st, rest, newTweetsFoundThisScroll);
          continue;  // IndexError on parts[3], swallowed by the except clause
        }
        var tweetId := link.value.tweetId;
        if tweetId in seenTweetIds {
          ScanSkip(st, rest, newTweetsFoundThisScroll);
          continue;
        }
        if el.text.None? {
          ScanSkip(st, rest, newTweetsFoundThisScroll);
          continue;
        }
        var retweets := RetweetCount(el.retweetLabel);
        var hashtags := HashtagLinks(el.linkTexts);
        var likes := if el.likes.Some? then el.likes.value else "0";
        var tweet := Tweet(tweetId, link.value.tweetUrl, link.value.author, el.text.value,
                           likes, retweets, if hashtags == [] then None else Some(hashtags));
        assert Extract(el, seenTweetIds) == Some(tweet);
        ScanEmit(st, rest, newTweetsFoundThisScroll, tweet);
        Record(tweet);
        newTweetsFoundThisScroll := newTweetsFoundThisScroll + 1;
        if scrapedItemsCount >= TWEET_LIMIT {
          return;
        }
      }
    }

    /** `parse`: the `while` loop over the snapshots, ending at the item limit, after three
        consecutive empty scrolls, or when there is no further snapshot. Afterwards the fields
        hold exactly what the specification `Crawl` computes, so every property proved about
        `Crawl` holds of the spider. */
    method Parse(snapshots: seq<seq<Element>>)
      requires Valid()
      modifies this
      ensures Valid()
      ensures old(yielded) <= yielded
      ensures State() == Crawl(old(State()), snapshots).state
    {
      ghost var start := State();
      ghost var target := Crawl(start, snapshots).state;
      var emptyScrollAttempts: nat := 0;
      var i := 0;
      assert snapshots[0..] == snapshots;
      while scrapedItemsCount < TWEET_LIMIT && i < |snapshots|
        invariant 0 <= i <= |snapshots|
        invariant emptyScrollAttempts < MAX_EMPTY_SCROLLS
        invariant Valid() && start.emitted <= yielded
        invariant Passes(State(), emptyScrollAttempts, snapshots[i..]).state == target
        decreases |snapshots| - i
      {
        var tweetArticles := snapshots[i];
        ghost var before := State();
        ghost var remaining := snapshots[i..];
        assert remaining[0] == tweetArticles && remaining[1..] == snapshots[i + 1..];
        i := i + 1;
        var newTweetsFoundThisScroll := ScanArticles(tweetArticles);
        PassesStep(before, emptyScrollAttempts, remaining, State(), newTweetsFoundThisScroll);
        if scrapedItemsCount >= TWEET_LIMIT {
          break;
        }
        emptyScrollAttempts := if newTweetsFoundThisScroll == 0 && |tweetArticles| > 0 then emptyScrollAttempts + 1 else 0;
        if emptyScrollAttempts >= MAX_EMPTY_SCROLLS {
          break;
        }
      }
    }
  }
}
