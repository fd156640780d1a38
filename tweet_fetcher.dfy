/**
 * `twitter/tweet_fetcher.py`: sampling tweet ids from id files, fetching tweets from the
 * API in batches of 100 with a single retry, and writing each batch out as id and text
 * lines, grouped by state when geo data is used.
 *
 * The API, the clock, `time.sleep` and the random number generator are not modelled: an API
 * call's outcome is a parameter, and a sleep is an event in the returned trace.
 */
module TweetFetcher {
  import opened Results
  import opened Text
  import opened Files
  import StateDataAggregator

  /** `SAMPLE_PERCENTAGE`. */
  const SamplePercentage: int := 1
  const CovidTweetTextDir: string := "../data/tweets/covid_tweets"
  const GeoCovidTweetIds: string := "../data/tweets/geo_covid_tweet_ids"
  const GeoCovidTweetTextDir: string := "../data/tweets/geo_covid_tweets"
  /** `statuses_lookup` takes at most this many ids. */
  const BatchSize: nat := 100
  /** Seconds slept after a rate-limit error, `15 * 60`. */
  const RateLimitPause: nat := 15 * 60

  /** `tweet.place`: the place's `full_name`, `place_type` and `country_code`. */
  datatype Place = Place(fullName: string, placeType: string, countryCode: string)

  /** `tweet.retweeted_status`, of which only `full_text` is used. */
  datatype Original = Original(fullText: Option<string>)

  /** A tweet as the API returns it; Python's `None` is `None`. */
  datatype Tweet = Tweet(id: nat, lang: string, fullText: Option<string>,
                         retweetedStatus: Option<Original>, text: Option<string>,
                         place: Option<Place>)

  // ---------------------------------------------------------------------------------------
  // Sampling

  /**
   * `should_sample()`. `draw` stands for `random.random() < SAMPLE_PERCENTAGE * 2`, which
   * is only evaluated when the percentage is not 1; with the percentage at 1 every id is kept.
   */
  function ShouldSample(draw: bool): (r: bool)
    ensures r
  {
    if SamplePercentage == 1 then true else draw
  }

  /** `int(line.strip())` succeeds on every line before `n`. */
  predicate AllParse(lines: seq<string>, n: nat)
    requires n <= |lines|
  {
    forall j :: 0 <= j < n ==> ParseInt(Strip(lines[j])).Some?
  }

  /**
   * `sample_tweet_ids_from_file` given the file's `readlines()`. Every line is sampled, so
   * the result is every line parsed as an integer, in file order; the first line that is not
   * an integer raises `ValueError`, reported here as `Err` with that line's index.
   */
  method SampleTweetIdsFromFile(lines: seq<string>) returns (r: Result<seq<int>, nat>)
    ensures r.Ok? <==> AllParse(lines, |lines|)
    ensures r.Ok? ==> |r.value| == |lines| &&
                      forall j :: 0 <= j < |lines| ==> Some(r.value[j]) == ParseInt(Strip(lines[j]))
    ensures r.Err? ==> r.error < |lines| && AllParse(lines, r.error) &&
                       ParseInt(Strip(lines[r.error])).None?
  {
    var sampledIds: seq<int> := [];
    for k := 0 to |lines|
      invariant AllParse(lines, k)
      invariant |sampledIds| == k
      invariant forall j :: 0 <= j < k ==> Some(sampledIds[j]) == ParseInt(Strip(lines[j]))
    {
      var draw: bool := *;
      if ShouldSample(draw) {
        var parsed := ParseInt(Strip(lines[k]));
        if parsed.None? {
          return Err(k);
        }
        sampledIds := sampledIds + [parsed.value];
      }
    }
    return Ok(sampledIds);
  }

  // ---------------------------------------------------------------------------------------
  // Fetching in batches

  /** What one `api.statuses_lookup` call does: return tweets, raise `RateLimitError`, or raise another `TweepError`. */
  datatype Outcome = Found(tweets: seq<Tweet>) | RateLimited | Failed

  /** What `get_tweets` does, in order: a lookup of some ids, a sleep, or a flush of a batch. */
  datatype Event<Id> = Lookup(ids: seq<Id>) | Sleep(seconds: nat) | Flush(tweets: seq<Tweet>)

  /**
   * A run of `get_tweets`: its events, and whether it stopped because `tweets` was read
   * before any lookup had succeeded (Python's `UnboundLocalError`).
   */
  datatype Run<Id> = Run(events: seq<Event<Id>>, unbound: bool)

  /** `tweet_ids[i:i + 100]`. */
  function Slice<Id>(ids: seq<Id>, i: nat): seq<Id>
    requires i <= |ids|
  {
    ids[i..if i + BatchSize <= |ids| then i + BatchSize else |ids|]
  }

  /**
   * One iteration's requests, given the outcome of the first lookup and of the retry, and
   * the value `tweets` holds afterwards (`None` while unbound). A failed retry leaves `tweets`
   * as it was.
   */
  function BatchSpec<Id>(slice: seq<Id>, first: Outcome, retry: Outcome, held: Option<seq<Tweet>>)
    : (seq<Event<Id>>, Option<seq<Tweet>>)
  {
    var after := if retry.Found? then Some(retry.tweets) else held;
    match first
    case Found(tweets) => ([Lookup(slice)], Some(tweets))
    case RateLimited => ([Lookup(slice), Sleep(RateLimitPause), Lookup(slice)], after)
    case Failed => ([Lookup(slice), Lookup(slice)], after)
  }

  /**
   * `get_tweets` from offset `i` on, with `tweets` holding `held`; `respond(b, a)` is the
   * outcome of attempt `a` (0 or 1) for batch number `b`.
   */
  function RunFrom<Id>(ids: seq<Id>, i: nat, respond: (nat, nat) -> Outcome, held: Option<seq<Tweet>>)
    : Run<Id>
    decreases |ids| - i
  {
    if i >= |ids| then Run([], false)
    else
      var (events, after) := BatchSpec(Slice(ids, i), respond(i / BatchSize, 0),
                                       respond(i / BatchSize, 1), held);
      if after.None? then Run(events, true)
      else
        var rest := RunFrom(ids, i + BatchSize, respond, after);
        Run(events + [Flush(after.value)] + rest.events, rest.unbound)
  }

  /**
   * The `try`/`except` block of one `get_tweets` iteration: the lookups and sleep it makes and
   * the value `tweets` holds afterwards. A rate-limit error is followed by exactly one sleep
   * of 15 minutes and one retry; any other error by one retry without a sleep; a failed retry
   * leaves `tweets` unchanged.
   */
  method LookupWithRetry<Id>(slice: seq<Id>, batch: nat, respond: (nat, nat) -> Outcome,
                             held: Option<seq<Tweet>>)
    returns (events: seq<Event<Id>>, tweets: Option<seq<Tweet>>)
    ensures (events, tweets) == BatchSpec(slice, respond(batch, 0), respond(batch, 1), held)
  {
    tweets := held;
    events := [Lookup(slice)];
    var outcome := respond(batch, 0);
    if outcome.Found? {
      tweets := Some(outcome.tweets);
    } else {
      if outcome.RateLimited? {
        events := events + [Sleep(RateLimitPause)];
      }
      events := events + [Lookup(slice)];
      var retry := respond(batch, 1);
      if retry.Found? {
        tweets := Some(retry.tweets);
      }
      assert outcome.RateLimited? ==> events == [Lookup(slice), Sleep(RateLimitPause), Lookup(slice)];
      assert outcome.Failed? ==> events == [Lookup(slice), Lookup(slice)];
    }
  }

  /** One unfolding of `RunFrom`. */
  lemma RunFromUnfold<Id>(ids: seq<Id>, i: nat, respond: (nat, nat) -> Outcome, held: Option<seq<Tweet>>)
    requires i < |ids|
    ensures var (events, after) := BatchSpec(Slice(ids, i), respond(i / BatchSize, 0),
                                             respond(i / BatchSize, 1), held);
            var run := RunFrom(ids, i, respond, held);
            if after.None? then run == Run(events, true)
            else
              var rest := RunFrom(ids, i + BatchSize, respond, after);
              run == Run(events + [Flush(after.value)] + rest.events, rest.unbound)
  {
  }

  /** One unfolding of `RunFrom`, given what the first batch does. */
  lemma RunFromStep<Id>(ids: seq<Id>, i: nat, respond: (nat, nat) -> Outcome, held: Option<seq<Tweet>>,
                          events: seq<Event<Id>>, after: Option<seq<Tweet>>)
    requires i < |ids|
    requires (events, after) == BatchSpec(Slice(ids, i), respond(i / BatchSize, 0),
                                          respond(i / BatchSize, 1), held)
    ensures after.None? ==> RunFrom(ids, i, respond, held) == Run(events, true)
    ensures after.Some? ==>
              RunFrom(ids, i, respond, held) ==
                Run(events + [Flush(after.value)] + RunFrom(ids, i + BatchSize, respond, after).events,
                    RunFrom(ids, i + BatchSize, respond, after).unbound)
  {
  }

  /** Regrouping a concatenation of four event sequences. */
  lemma ConcatRegroup<Id>(a: seq<Event<Id>>, b: seq<Event<Id>>, c: seq<Event<Id>>, d: seq<Event<Id>>)
    ensures a + (b + c + d) == (a + b + c) + d
  {
  }

  /**
   * `get_tweets(tweet_ids, api, ...)`: the batch loop with its retry policy. Each flush stands
   * for the call to `clean_and_flush_with_geo` or `clean_and_flush_without_geo`.
   */
  method GetTweets<Id>(tweetIds: seq<Id>, respond: (nat, nat) -> Outcome) returns (run: Run<Id>)
    ensures run == RunFrom(tweetIds, 0, respond, None)
  {
    var i: nat := 0;
    var tweets: Option<seq<Tweet>> := None;
    var events: seq<Event<Id>> := [];
    while i < |tweetIds|
      invariant RunFrom(tweetIds, 0, respond, None)
                == Run(events + RunFrom(tweetIds, i, respond, tweets).events,
                       RunFrom(tweetIds, i, respond, tweets).unbound)
      decreases |tweetIds| - i
    {
      var batchEvents, after := LookupWithRetry(Slice(tweetIds, i), i / BatchSize, respond, tweets);
      RunFromStep(tweetIds, i, respond, tweets, batchEvents, after);
      if after.None? {
        return Run(events + batchEvents, true);
      }
      ghost var rest := RunFrom(tweetIds, i + BatchSize, respond, after);
      ConcatRegroup(events, batchEvents, [Flush(after.value)], rest.events);
      events := events + batchEvents + [Flush(after.value)];
      tweets := after;
      i := i + BatchSize;
    }
    return Run(events, false);
  }

  // ---------------------------------------------------------------------------------------
  // What a run of `get_tweets` does

  /** The slices `tweet_ids[i:i + 100]`, `tweet_ids[i + 100:i + 200]`, ... the loop visits. */
  function Batches<Id>(ids: seq<Id>, i: nat): seq<seq<Id>>
    decreases |ids| - i
  {
    if i >= |ids| then [] else [Slice(ids, i)] + Batches(ids, i + BatchSize)
  }

  /**
   * The loop visits ceil((n - i) / 100) slices; slice k holds the (at most 100, at least 1)
   * ids starting at i + 100 * k, so together they cover the list from i on, in order.
   */
  lemma {:induction false} BatchesCover<Id>(ids: seq<Id>, i: nat)
    requires i <= |ids|
    ensures var bs := Batches(ids, i);
            |bs| == (|ids| - i + BatchSize - 1) / BatchSize &&
            forall k :: 0 <= k < |bs| ==>
              var start := i + k * BatchSize;
              var stop := if start + BatchSize <= |ids| then start + BatchSize else |ids|;
              start < stop <= start + BatchSize && bs[k] == ids[start..stop]
    decreases |ids| - i
  {
    if i < |ids| {
      var bs := Batches(ids, i);
      if i + BatchSize <= |ids| {
        BatchesCover(ids, i + BatchSize);
        forall k | 1 <= k < |bs|
          ensures bs[k] == Batches(ids, i + BatchSize)[k - 1]
          ensures i + k * BatchSize == (i + BatchSize) + (k - 1) * BatchSize
        {
        }
      } else {
        assert Batches(ids, i + BatchSize) == [];
      }
    }
  }

  /** The three kinds of event. */
  datatype Kind = LookupKind | SleepKind | FlushKind

  function KindOf<Id>(e: Event<Id>): Kind {
    match e
    case Lookup(_) => LookupKind
    case Sleep(_) => SleepKind
    case Flush(_) => FlushKind
  }

  /** How many events of kind `k` there are. */
  function Count<Id>(events: seq<Event<Id>>, k: Kind): nat {
    if events == [] then 0
    else (if KindOf(events[0]) == k then 1 else 0) + Count(events[1..], k)
  }

  lemma {:induction false} CountAppend<Id>(a: seq<Event<Id>>, b: seq<Event<Id>>, k: Kind)
    ensures Count(a + b, k) == Count(a, k) + Count(b, k)
  {
    if a == [] {
      assert a + b == b;
    } else {
      CountAppend(a[1..], b, k);
      assert (a + b)[0] == a[0];
      assert (a + b)[1..] == a[1..] + b;
    }
  }

  /** The requests of one batch: one lookup, one more after any error, one sleep after a rate limit. */
  lemma BatchCounts<Id>(slice: seq<Id>, first: Outcome, retry: Outcome, held: Option<seq<Tweet>>)
    ensures var events := BatchSpec(slice, first, retry, held).0;
            Count(events, LookupKind) == (if first.Found? then 1 else 2) &&
            Count(events, SleepKind) == (if first.RateLimited? then 1 else 0) &&
            Count(events, FlushKind) == 0
  {
    var lookup: Event<Id> := Lookup(slice);
    var sleep: Event<Id> := Sleep(RateLimitPause);
    forall k: Kind
      ensures Count([lookup], k) == if k == LookupKind then 1 else 0
      ensures Count([sleep], k) == if k == SleepKind then 1 else 0
      ensures Count([lookup, lookup], k) == Count([lookup], k) + Count([lookup], k)
      ensures Count([lookup, sleep, lookup], k) == Count([lookup], k) + Count([sleep], k) + Count([lookup], k)
    {
      CountOne(lookup, k);
      CountOne(sleep, k);
      CountPair(lookup, lookup, k);
      CountPair(sleep, lookup, k);
      CountTriple(lookup, sleep, lookup, k);
    }
  }

  /** A single event counts once, for its own kind. */
  lemma CountOne<Id>(e: Event<Id>, k: Kind)
    ensures Count([e], k) == if KindOf(e) == k then 1 else 0
  {
    assert [e][1..] == [];
  }

  lemma CountPair<Id>(a: Event<Id>, b: Event<Id>, k: Kind)
    ensures Count([a, b], k) == Count([a], k) + Count([b], k)
  {
    assert [a, b][1..] == [b];
    assert [a][1..] == [];
  }

  lemma CountTriple<Id>(a: Event<Id>, b: Event<Id>, c: Event<Id>, k: Kind)
    ensures Count([a, b, c], k) == Count([a], k) + Count([b, c], k)
  {
    assert [a, b, c][1..] == [b, c];
    assert [a][1..] == [];
  }

  /** Batches from offset `i` on whose first lookup raised a rate-limit error. */
  function RateLimitedBatches<Id>(ids: seq<Id>, i: nat, respond: (nat, nat) -> Outcome): nat
    decreases |ids| - i
  {
    if i >= |ids| then 0
    else (if respond(i / BatchSize, 0).RateLimited? then 1 else 0)
         + RateLimitedBatches(ids, i + BatchSize, respond)
  }

  /** Batches from offset `i` on whose first lookup raised any error. */
  function FailedBatches<Id>(ids: seq<Id>, i: nat, respond: (nat, nat) -> Outcome): nat
    decreases |ids| - i
  {
    if i >= |ids| then 0
    else (if respond(i / BatchSize, 0).Found? then 0 else 1) + FailedBatches(ids, i + BatchSize, respond)
  }

  /**
   * A run that does not stop on an unbound `tweets` flushes once per batch, sleeps once per
   * batch whose first lookup hit the rate limit, and looks up once per batch plus once more per
   * batch whose first lookup failed.
   */
  lemma {:induction false} RunCounts<Id>(ids: seq<Id>, i: nat, respond: (nat, nat) -> Outcome,
                                         held: Option<seq<Tweet>>)
    requires !RunFrom(ids, i, respond, held).unbound
    ensures var events := RunFrom(ids, i, respond, held).events;
            Count(events, FlushKind) == |Batches(ids, i)| &&
            Count(events, SleepKind) == RateLimitedBatches(ids, i, respond) &&
            Count(events, LookupKind) == |Batches(ids, i)| + FailedBatches(ids, i, respond)
    decreases |ids| - i
  {
    if i < |ids| {
      RunFromUnfold(ids, i, respond, held);
      var (events, after) := BatchSpec(Slice(ids, i), respond(i / BatchSize, 0),
                                       respond(i / BatchSize, 1), held);
      var rest := RunFrom(ids, i + BatchSize, respond, after);
      RunCounts(ids, i + BatchSize, respond, after);
      BatchCounts(Slice(ids, i), respond(i / BatchSize, 0), respond(i / BatchSize, 1), held);
      CountAppend(events, [Flush(after.value)], LookupKind);
      CountAppend(events, [Flush(after.value)], SleepKind);
      CountAppend(events, [Flush(after.value)], FlushKind);
      CountAppend(events + [Flush(after.value)], rest.events, LookupKind);
      CountAppend(events + [Flush(after.value)], rest.events, SleepKind);
      CountAppend(events + [Flush(after.value)], rest.events, FlushKind);
    }
  }

  /** Once a lookup has succeeded, `tweets` stays bound for the rest of the run. */
  lemma {:induction false} BoundStaysBound<Id>(ids: seq<Id>, i: nat, respond: (nat, nat) -> Outcome,
                                               held: Option<seq<Tweet>>)
    requires held.Some?
    ensures !RunFrom(ids, i, respond, held).unbound
    decreases |ids| - i
  {
    if i < |ids| {
      RunFromUnfold(ids, i, respond, held);
      var after := BatchSpec(Slice(ids, i), respond(i / BatchSize, 0), respond(i / BatchSize, 1), held).1;
      BoundStaysBound(ids, i + BatchSize, respond, after);
    }
  }

  /**
   * `get_tweets` fails on an unbound `tweets` exactly when the list is non-empty and both
   * the first lookup and the retry of the first batch fail.
   */
  lemma RunUnboundIff<Id>(ids: seq<Id>, respond: (nat, nat) -> Outcome)
    ensures RunFrom(ids, 0, respond, None).unbound
            <==> |ids| > 0 && !respond(0, 0).Found? && !respond(0, 1).Found?
  {
    if |ids| > 0 {
      RunFromUnfold(ids, 0, respond, None);
      var after := BatchSpec(Slice(ids, 0), respond(0, 0), respond(0, 1), None).1;
      if after.Some? {
        BoundStaysBound(ids, BatchSize, respond, after);
      }
    }
  }

  /**
   * Every sleep lasts 15 minutes, and sits between a lookup and a retry of the same ids: the
   * rate-limit pause is always followed by exactly that retry.
   */
  ghost predicate SleepsBeforeRetry<Id>(events: seq<Event<Id>>) {
    forall j :: 0 <= j < |events| && events[j].Sleep? ==>
      events[j].seconds == RateLimitPause && 0 < j < |events| - 1 &&
      events[j - 1].Lookup? && events[j + 1] == events[j - 1]
  }

  lemma {:induction false} SleepsBeforeRetryAppend<Id>(a: seq<Event<Id>>, b: seq<Event<Id>>)
    requires SleepsBeforeRetry(a) && SleepsBeforeRetry(b)
    ensures SleepsBeforeRetry(a + b)
  {
    forall j | 0 <= j < |a + b| && (a + b)[j].Sleep?
      ensures (a + b)[j].seconds == RateLimitPause && 0 < j < |a + b| - 1 &&
              (a + b)[j - 1].Lookup? && (a + b)[j + 1] == (a + b)[j - 1]
    {
      if j < |a| {
        assert a[j].Sleep?;
      } else {
        assert b[j - |a|].Sleep?;
      }
    }
  }

  /** Every lookup of a run asks for one of the batches. */
  ghost predicate LookupsAreBatches<Id>(events: seq<Event<Id>>, batches: seq<seq<Id>>) {
    forall j :: 0 <= j < |events| && events[j].Lookup? ==> events[j].ids in batches
  }

  /** In every run, each sleep is a 15-minute pause between a failed lookup and its identical retry. */
  lemma {:induction false} RunSleeps<Id>(ids: seq<Id>, i: nat, respond: (nat, nat) -> Outcome,
                                         held: Option<seq<Tweet>>)
    ensures SleepsBeforeRetry(RunFrom(ids, i, respond, held).events)
    decreases |ids| - i
  {
    if i < |ids| {
      RunFromUnfold(ids, i, respond, held);
      var (events, after) := BatchSpec(Slice(ids, i), respond(i / BatchSize, 0),
                                       respond(i / BatchSize, 1), held);
      assert SleepsBeforeRetry(events);
      if after.Some? {
        var rest := RunFrom(ids, i + BatchSize, respond, after);
        RunSleeps(ids, i + BatchSize, respond, after);
        SleepsBeforeRetryAppend(events, [Flush(after.value)]);
        SleepsBeforeRetryAppend(events + [Flush(after.value)], rest.events);
      }
    }
  }

  /** In every run, every lookup asks for one of the slices `tweet_ids[i:i + 100]`. */
  lemma {:induction false} RunLookups<Id>(ids: seq<Id>, i: nat, respond: (nat, nat) -> Outcome,
                                          held: Option<seq<Tweet>>)
    ensures LookupsAreBatches(RunFrom(ids, i, respond, held).events, Batches(ids, i))
    decreases |ids| - i
  {
    if i < |ids| {
      RunFromUnfold(ids, i, respond, held);
      var (events, after) := BatchSpec(Slice(ids, i), respond(i / BatchSize, 0),
                                       respond(i / BatchSize, 1), held);
      assert LookupsAreBatches(events, Batches(ids, i));
      if after.Some? {
        var rest := RunFrom(ids, i + BatchSize, respond, after);
        RunLookups(ids, i + BatchSize, respond, after);
        var all := events + [Flush(after.value)] + rest.events;
        forall j | 0 <= j < |all| && all[j].Lookup?
          ensures all[j].ids in Batches(ids, i)
        {
          if j > |events| {
            assert all[j] == rest.events[j - |events| - 1];
          }
        }
      }
    }
  }

  /**
   * 150 ids, a rate limit on the first lookup and success on its retry and on the second
   * batch: two batches of at most 100, exactly one sleep, every tweet flushed.
   */
  lemma RateLimitThenSuccess<Id>(ids: seq<Id>, first: seq<Tweet>, second: seq<Tweet>)
    requires |ids| == 150
    ensures var respond := (b: nat, a: nat) =>
              if b == 0 && a == 0 then RateLimited else if b == 0 then Found(first) else Found(second);
            RunFrom(ids, 0, respond, None)
            == Run([Lookup(ids[..100]), Sleep(RateLimitPause), Lookup(ids[..100]), Flush(first),
                    Lookup(ids[100..]), Flush(second)], false)
  {
    var respond := (b: nat, a: nat) =>
      if b == 0 && a == 0 then RateLimited else if b == 0 then Found(first) else Found(second);
    RunFromUnfold(ids, 0, respond, None);
    RunFromUnfold(ids, 100, respond, Some(first));
    assert Slice(ids, 0) == ids[..100] && Slice(ids, 100) == ids[100..];
    assert RunFrom(ids, 200, respond, Some(second)) == Run([], false);
    assert BatchSpec(ids[..100], RateLimited, Found(first), None)
           == ([Lookup(ids[..100]), Sleep(RateLimitPause), Lookup(ids[..100])], Some(first));
  }

  /**
   * A second batch whose lookup and retry both fail flushes the first batch's tweets again,
   * because `tweets` still holds them.
   */
  lemma FailedRetryReflushes<Id>(ids: seq<Id>, first: seq<Tweet>)
    requires |ids| == 150
    ensures var respond := (b: nat, a: nat) => if b == 0 then Found(first) else Failed;
            RunFrom(ids, 0, respond, None)
            == Run([Lookup(ids[..100]), Flush(first), Lookup(ids[100..]), Lookup(ids[100..]),
                    Flush(first)], false)
  {
    var respond := (b: nat, a: nat) => if b == 0 then Found(first) else Failed;
    RunFromUnfold(ids, 0, respond, None);
    RunFromUnfold(ids, 100, respond, Some(first));
    assert Slice(ids, 0) == ids[..100] && Slice(ids, 100) == ids[100..];
    assert RunFrom(ids, 200, respond, Some(first)) == Run([], false);
    assert BatchSpec(ids[100..], Failed, Failed, Some(first))
           == ([Lookup(ids[100..]), Lookup(ids[100..])], Some(first));
  }

  // ---------------------------------------------------------------------------------------
  // Cleaning and flushing

  /**
   * The text `clean_tweet` starts from: `full_text`, else the retweeted original's
   * `full_text`, else `text`; `None` when all three are missing.
   */
  function ChosenText(t: Tweet): Option<string>
  {
    if t.fullText.Some? then t.fullText
    else if t.retweetedStatus.Some? && t.retweetedStatus.value.fullText.Some? then
      t.retweetedStatus.value.fullText
    else t.text
  }

  /**
   * `clean_tweet(tweet)`: the chosen text with every `\n` and `\r` removed, so each tweet fits
   * on one line; "" when there is no text at all. Nothing but line breaks is removed.
   */
  function CleanTweet(t: Tweet): (r: string)
    ensures '\n' !in r && '\r' !in r
    ensures ChosenText(t).None? ==> r == ""
    ensures ChosenText(t).Some? ==> r == WithoutLineBreaks(ChosenText(t).value)
    ensures ChosenText(t).Some? ==>
              multiset(r) == multiset(ChosenText(t).value)['\n' := 0]['\r' := 0]
    ensures ChosenText(t).Some? && '\n' !in ChosenText(t).value && '\r' !in ChosenText(t).value ==>
              r == ChosenText(t).value
  {
    match ChosenText(t)
    case None => ""
    case Some(tweetText) => WithoutLineBreaks(tweetText)
  }

  /** `text.replace('\n', '').replace('\r', '')`. */
  function WithoutLineBreaks(text: string): (r: string)
    ensures '\n' !in r && '\r' !in r
    ensures multiset(r) == multiset(text)['\n' := 0]['\r' := 0]
  {
    var withoutNewlines := RemoveChar(text, '\n');
    var r := RemoveChar(withoutNewlines, '\r');
    assert multiset(r)['\n'] == 0;
    r
  }

  /** Line breaks are removed piecewise, so every other character keeps its place in the order. */
  lemma WithoutLineBreaksAppend(a: string, b: string)
    ensures WithoutLineBreaks(a + b) == WithoutLineBreaks(a) + WithoutLineBreaks(b)
  {
    RemoveCharAppend(a, b, '\n');
    RemoveCharAppend(RemoveChar(a, '\n'), RemoveChar(b, '\n'), '\r');
  }

  /** A single character survives exactly when it is not a line break. */
  lemma WithoutLineBreaksOne(x: char)
    ensures WithoutLineBreaks([x]) == if x == '\n' || x == '\r' then [] else [x]
  {
    RemoveCharOne(x, '\n');
    if x != '\n' {
      RemoveCharOne(x, '\r');
    }
  }

  /**
   * `get_state_from_tweet(tweet)` for a tweet with a place. An `admin` place gives its first
   * comma-separated field, stripped; any other place gives its last field, stripped, when that
   * has exactly two characters, and `None` otherwise.
   */
  function GetStateFromTweet(t: Tweet): (r: Option<string>)
    requires t.place.Some?
    ensures t.place.value.placeType == "admin" ==> r.Some?
    ensures r.Some? && t.place.value.placeType != "admin" ==> |r.value| == 2
    ensures r.Some? ==> ',' !in r.value && r.value == Strip(r.value)
  {
    var place := t.place.value;
    var fields := Split(place.fullName, ',');
    if place.placeType == "admin" then
      StripIdempotent(fields[0]);
      StripNoNewChars(fields[0], ',');
      Some(Strip(fields[0]))
    else
      var state := Strip(fields[|fields| - 1]);
      StripIdempotent(fields[|fields| - 1]);
      StripNoNewChars(fields[|fields| - 1], ',');
      if |state| != 2 then None else Some(state)
  }

  /** Stripping does not introduce characters. */
  lemma StripNoNewChars(s: string, c: char)
    requires c !in s
    ensures c !in Strip(s)
  {
    var r := Strip(s);
    var a := LeadingSpaces(s);
    assert forall k :: 0 <= k < |r| ==> r[k] == s[a + k];
  }

  /**
   * Which field `get_state_from_tweet` reads: for an `admin` place, the text before the first
   * comma; for any other place, the text after the last comma, kept only when it strips to two
   * characters; a name without a comma is its own field either way.
   */
  lemma StateFromName(t: Tweet, head: string, tail: string)
    requires t.place.Some?
    ensures var name := t.place.value.fullName;
            ',' !in name ==>
              GetStateFromTweet(t) ==
                (if t.place.value.placeType == "admin" || |Strip(name)| == 2 then Some(Strip(name))
                 else None)
    ensures t.place.value.fullName == head + "," + tail && ',' !in head &&
            t.place.value.placeType == "admin" ==>
              GetStateFromTweet(t) == Some(Strip(head))
    ensures t.place.value.fullName == head + "," + tail && ',' !in tail &&
            t.place.value.placeType != "admin" ==>
              GetStateFromTweet(t) == (if |Strip(tail)| == 2 then Some(Strip(tail)) else None)
  {
    var name := t.place.value.fullName;
    if ',' !in name {
      SplitFree(name, ',');
    }
    if name == head + "," + tail && ',' !in head {
      SplitPrepend(head, tail, ',');
    }
    if name == head + "," + tail && ',' !in tail {
      SplitAppend(head, tail, ',');
    }
  }

  // ---------------------------------------------------------------------------------------
  // Grouping by state

  /** The filter of `clean_and_flush_with_geo`: English tweets with a place in the US. */
  predicate InUS(t: Tweet) {
    t.lang == "en" && t.place.Some? && t.place.value.countryCode == "US"
  }

  /** `filtered_tweets`: the tweets kept by `InUS`, in their original order. */
  function FilterUS(tweets: seq<Tweet>): (r: seq<Tweet>)
    ensures |r| <= |tweets|
    ensures forall j :: 0 <= j < |r| ==> InUS(r[j])
    ensures forall t :: t in r <==> t in tweets && InUS(t)
  {
    if tweets == [] then []
    else (if InUS(tweets[0]) then [tweets[0]] else []) + FilterUS(tweets[1..])
  }

  /** Every tweet in `ts` has a place, so `get_state_from_tweet` can read it. */
  predicate AllPlaced(ts: seq<Tweet>) {
    forall j :: 0 <= j < |ts| ==> ts[j].place.Some?
  }

  /** The filtered tweets of a batch all have a place. */
  lemma FilterUSPlaced(tweets: seq<Tweet>)
    ensures AllPlaced(FilterUS(tweets))
  {
  }

  /** Filtering a concatenation filters each part, so the kept tweets keep their order and count. */
  lemma {:induction false} FilterUSAppend(a: seq<Tweet>, b: seq<Tweet>)
    ensures FilterUS(a + b) == FilterUS(a) + FilterUS(b)
  {
    if a == [] {
      assert a + b == b;
    } else {
      assert (a + b)[0] == a[0] && (a + b)[1..] == a[1..] + b;
      FilterUSAppend(a[1..], b);
    }
  }

  /** A single tweet is kept exactly when it is English and placed in the US. */
  lemma FilterUSOne(t: Tweet)
    ensures FilterUS([t]) == if InUS(t) then [t] else []
  {
  }

  /** What `get_state_from_tweet` answers for each tweet of `ts`, position by position. */
  function Located(ts: seq<Tweet>): (r: seq<Option<string>>)
    requires AllPlaced(ts)
    ensures |r| == |ts|
  {
    seq(|ts|, j requires 0 <= j < |ts| => GetStateFromTweet(ts[j]))
  }

  /**
   * The value of the `state` variable after the loop has seen `n` tweets whose own answers are
   * `located`. It starts as the parameter and is only recomputed while it is `None`: once a
   * tweet yields a state, that state (even "") is reused for every later tweet of the batch.
   */
  function StateAfter(located: seq<Option<string>>, state: Option<string>, n: nat): Option<string>
    requires n <= |located|
  {
    if n == 0 then state
    else
      var s := StateAfter(located, state, n - 1);
      if s.None? then located[n - 1] else s
  }

  /** Python's `if state:` — a state that is present and not the empty string. */
  predicate Truthy(s: Option<string>) {
    s.Some? && s.value != ""
  }

  /** The tweets among the first `n` that `tweets_by_state[g]` collects, in order. */
  function Members(ts: seq<Tweet>, located: seq<Option<string>>, state: Option<string>, g: string,
                   n: nat): seq<Tweet>
    requires n <= |ts| == |located|
  {
    if n == 0 then []
    else
      var s := StateAfter(located, state, n);
      Members(ts, located, state, g, n - 1) + (if Truthy(s) && s.value == g then [ts[n - 1]] else [])
  }

  /** The keys of `tweets_by_state` after `n` tweets, in insertion order. */
  function GroupKeys(located: seq<Option<string>>, state: Option<string>, n: nat): seq<string>
    requires n <= |located|
  {
    if n == 0 then []
    else
      var keys := GroupKeys(located, state, n - 1);
      var s := StateAfter(located, state, n);
      if Truthy(s) && s.value !in keys then keys + [s.value] else keys
  }

  /** The dictionary `tweets_by_state` after `n` tweets. */
  function Groups(ts: seq<Tweet>, located: seq<Option<string>>, state: Option<string>, n: nat)
    : map<string, seq<Tweet>>
    requires n <= |ts| == |located|
  {
    map g | g in GroupKeys(located, state, n) :: Members(ts, located, state, g, n)
  }

  /** A tweet whose state in force is falsy leaves `tweets_by_state` as it was. */
  lemma GroupsSkip(ts: seq<Tweet>, located: seq<Option<string>>, state: Option<string>, k: nat)
    requires k < |ts| == |located|
    requires !Truthy(StateAfter(located, state, k + 1))
    ensures GroupKeys(located, state, k + 1) == GroupKeys(located, state, k)
    ensures Groups(ts, located, state, k + 1) == Groups(ts, located, state, k)
  {
    var keys := GroupKeys(located, state, k);
    assert GroupKeys(located, state, k + 1) == keys;
    var before, after := Groups(ts, located, state, k), Groups(ts, located, state, k + 1);
    assert after.Keys == before.Keys;
    forall h | h in after
      ensures after[h] == before[h]
    {
      assert Members(ts, located, state, h, k + 1) == Members(ts, located, state, h, k);
    }
  }

  /** A tweet whose state is already a key is appended to that key's list. */
  lemma GroupsJoin(ts: seq<Tweet>, located: seq<Option<string>>, state: Option<string>, k: nat)
    requires k < |ts| == |located|
    requires Truthy(StateAfter(located, state, k + 1))
    requires StateAfter(located, state, k + 1).value in Groups(ts, located, state, k)
    ensures var g := StateAfter(located, state, k + 1).value;
            var before := Groups(ts, located, state, k);
            GroupKeys(located, state, k + 1) == GroupKeys(located, state, k) &&
            Groups(ts, located, state, k + 1) == before[g := before[g] + [ts[k]]]
  {
    var g := StateAfter(located, state, k + 1).value;
    var keys := GroupKeys(located, state, k);
    var before, after := Groups(ts, located, state, k), Groups(ts, located, state, k + 1);
    var expected := before[g := before[g] + [ts[k]]];
    assert GroupKeys(located, state, k + 1) == keys;
    assert after.Keys == expected.Keys by {
      assert GroupKeys(located, state, k + 1) == keys;
    }
    forall h | h in after
      ensures after[h] == expected[h]
    {
      var s := StateAfter(located, state, k + 1);
      assert Members(ts, located, state, h, k + 1) ==
             Members(ts, located, state, h, k) + (if Truthy(s) && s.value == h then [ts[k]] else []);
    }
    assert after == expected;
  }

  /** A tweet whose state is not yet a key opens a new list holding just that tweet. */
  lemma GroupsOpen(ts: seq<Tweet>, located: seq<Option<string>>, state: Option<string>, k: nat)
    requires k < |ts| == |located|
    requires Truthy(StateAfter(located, state, k + 1))
    requires StateAfter(located, state, k + 1).value !in Groups(ts, located, state, k)
    ensures var g := StateAfter(located, state, k + 1).value;
            GroupKeys(located, state, k + 1) == GroupKeys(located, state, k) + [g] &&
            Groups(ts, located, state, k + 1) == Groups(ts, located, state, k)[g := [ts[k]]]
  {
    var g := StateAfter(located, state, k + 1).value;
    var keys := GroupKeys(located, state, k);
    assert GroupKeys(located, state, k + 1) == keys + [g];
    var before, after := Groups(ts, located, state, k), Groups(ts, located, state, k + 1);
    var expected := before[g := [ts[k]]];
    assert after.Keys == expected.Keys by {
      assert GroupKeys(located, state, k + 1) == keys + [g];
    }
    forall h | h in after
      ensures after[h] == expected[h]
    {
      var s := StateAfter(located, state, k + 1);
      assert Members(ts, located, state, h, k + 1) ==
             Members(ts, located, state, h, k) + (if Truthy(s) && s.value == h then [ts[k]] else []);
      if h == g {
        assert Members(ts, located, state, g, k) == [] by {
          GroupKeysMembers(ts, located, state, k, g);
        }
      }
    }
    assert after == expected;
  }

  /** `get_state_from_tweet` applied to the `k`-th tweet of the batch. */
  method LocateState(ts: seq<Tweet>, k: nat) returns (r: Option<string>)
    requires AllPlaced(ts) && k < |ts|
    ensures r == Located(ts)[k]
  {
    r := GetStateFromTweet(ts[k]);
  }

  /**
   * The grouping loop of `clean_and_flush_with_geo` over `filtered_tweets`: returns the keys of
   * `tweets_by_state` in insertion order and the dictionary itself.
   */
  method GroupByState(filtered: seq<Tweet>, state: Option<string>)
    returns (keys: seq<string>, groups: map<string, seq<Tweet>>)
    requires AllPlaced(filtered)
    ensures keys == GroupKeys(Located(filtered), state, |filtered|)
    ensures groups == Groups(filtered, Located(filtered), state, |filtered|)
  {
    ghost var located := Located(filtered);
    var current := state;
    keys := [];
    groups := map[];
    for k := 0 to |filtered|
      invariant current == StateAfter(located, state, k)
      invariant keys == GroupKeys(located, state, k)
      invariant groups == Groups(filtered, located, state, k)
    {
      current, keys, groups := GroupTweet(filtered, state, k, current, keys, groups);
    }
  }

  /** One pass of the grouping loop: the `k`-th tweet, with `current` the state in force before it. */
  method GroupTweet(filtered: seq<Tweet>, state: Option<string>, k: nat, current: Option<string>,
                    keys: seq<string>, groups: map<string, seq<Tweet>>)
    returns (current': Option<string>, keys': seq<string>, groups': map<string, seq<Tweet>>)
    requires AllPlaced(filtered) && k < |filtered|
    requires current == StateAfter(Located(filtered), state, k)
    requires keys == GroupKeys(Located(filtered), state, k)
    requires groups == Groups(filtered, Located(filtered), state, k)
    ensures current' == StateAfter(Located(filtered), state, k + 1)
    ensures keys' == GroupKeys(Located(filtered), state, k + 1)
    ensures groups' == Groups(filtered, Located(filtered), state, k + 1)
  {
    ghost var located := Located(filtered);
    var tweet := filtered[k];
    current' := current;
    if current'.None? {
      current' := LocateState(filtered, k);
    }
    keys', groups' := keys, groups;
    if Truthy(current') {
      if current'.value in groups {
        GroupsJoin(filtered, located, state, k);
        groups' := groups[current'.value := groups[current'.value] + [tweet]];
      } else {
        GroupsOpen(filtered, located, state, k);
        groups' := groups[current'.value := [tweet]];
        keys' := keys + [current'.value];
      }
    } else {
      GroupsSkip(filtered, located, state, k);
    }
  }

  /** A state is a key of `tweets_by_state` exactly when some tweet was grouped under it. */
  lemma {:induction false} GroupKeysMembers(ts: seq<Tweet>, located: seq<Option<string>>,
                                            state: Option<string>, n: nat, g: string)
    requires n <= |ts| == |located|
    ensures g in GroupKeys(located, state, n) <==> Members(ts, located, state, g, n) != []
  {
    if n > 0 {
      GroupKeysMembers(ts, located, state, n - 1, g);
    }
  }

  /** No key appears twice. */
  predicate KeysDistinct(keys: seq<string>) {
    forall i, j :: 0 <= i < j < |keys| ==> keys[i] != keys[j]
  }

  /** No state is a key twice, and no key is the empty string. */
  lemma {:induction false} GroupKeysDistinct(located: seq<Option<string>>, state: Option<string>, n: nat)
    requires n <= |located|
    ensures KeysDistinct(GroupKeys(located, state, n))
    ensures forall i :: 0 <= i < |GroupKeys(located, state, n)| ==> GroupKeys(located, state, n)[i] != ""
  {
    if n > 0 {
      GroupKeysDistinct(located, state, n - 1);
      var keys := GroupKeys(located, state, n - 1);
      var s := StateAfter(located, state, n);
      if Truthy(s) && s.value !in keys {
        assert GroupKeys(located, state, n) == keys + [s.value];
      } else {
        assert GroupKeys(located, state, n) == keys;
      }
    }
  }

  /** The groups together hold each tweet at most once, and only tweets of the batch. */
  lemma {:induction false} MembersAreFromBatch(ts: seq<Tweet>, located: seq<Option<string>>,
                                               state: Option<string>, g: string, n: nat)
    requires n <= |ts| == |located|
    ensures |Members(ts, located, state, g, n)| <= n
    ensures forall t :: t in Members(ts, located, state, g, n) ==> t in ts[..n]
  {
    if n > 0 {
      MembersAreFromBatch(ts, located, state, g, n - 1);
      assert ts[..n] == ts[..n - 1] + [ts[n - 1]];
    }
  }

  /** Once the `state` variable holds a value, it keeps that value for the rest of the batch. */
  lemma {:induction false} StateSticks(located: seq<Option<string>>, state: Option<string>, m: nat, n: nat)
    requires m <= n <= |located|
    requires StateAfter(located, state, m).Some?
    ensures StateAfter(located, state, n) == StateAfter(located, state, m)
  {
    if m < n {
      StateSticks(located, state, m, n - 1);
    }
  }

  /**
   * Because `state` is never reset inside the loop, one call of `clean_and_flush_with_geo` opens
   * at most one group: the state in force once the first tweet has yielded one.
   */
  lemma {:induction false} AtMostOneGroup(located: seq<Option<string>>, state: Option<string>, n: nat)
    requires n <= |located|
    ensures GroupKeys(located, state, n) == [] ||
            (StateAfter(located, state, n).Some? &&
             GroupKeys(located, state, n) == [StateAfter(located, state, n).value])
  {
    if n > 0 {
      AtMostOneGroup(located, state, n - 1);
      if GroupKeys(located, state, n - 1) != [] {
        StateSticks(located, state, n - 1, n);
      }
    }
  }

  /**
   * The first tweet that yields a truthy state decides the group of every later tweet in the
   * batch: from there on, the tweets go to that one group, whatever their own places say.
   */
  lemma {:induction false} FirstStateDecides(ts: seq<Tweet>, located: seq<Option<string>>,
                                             state: Option<string>, m: nat, n: nat)
    requires m <= n <= |ts| == |located|
    requires Truthy(StateAfter(located, state, m))
    requires StateAfter(located, state, m).value in GroupKeys(located, state, m)
    ensures var g := StateAfter(located, state, m).value;
            Members(ts, located, state, g, n) == Members(ts, located, state, g, m) + ts[m..n] &&
            GroupKeys(located, state, n) == GroupKeys(located, state, m)
  {
    if m < n {
      FirstStateDecides(ts, located, state, m, n - 1);
      StateSticks(located, state, m, n);
      assert ts[m..n] == ts[m..n - 1] + [ts[n - 1]];
    } else {
      assert ts[m..n] == [];
    }
  }

  /**
   * `get_tweets_by_state` passes the state code in: then the whole filtered batch becomes one
   * group under that code, whatever `get_state_from_tweet` would say of each tweet.
   */
  lemma PresetState(ts: seq<Tweet>, located: seq<Option<string>>, code: string)
    requires |ts| == |located| && code != ""
    ensures GroupKeys(located, Some(code), |ts|) == (if ts == [] then [] else [code])
    ensures Members(ts, located, Some(code), code, |ts|) == ts
  {
    if ts != [] {
      assert [ts[0]] + ts[1..|ts|] == ts;
      assert StateAfter(located, Some(code), 1) == Some(code);
      assert GroupKeys(located, Some(code), 1) == [code];
      assert Members(ts, located, Some(code), code, 1) == [ts[0]];
      FirstStateDecides(ts, located, Some(code), 1, |ts|);
    }
  }

  // ---------------------------------------------------------------------------------------
  // Writing batches out

  /** `flush_list(list_, file_name)`: every item is appended to the file as one line. */
  method FlushList(store: FileStore, items: seq<string>, fileName: string)
    modifies store
    ensures store.files == AppendSpec(old(store.files), fileName, Lines(items))
  {
    store.Append(fileName, Lines(items));
  }

  /** `[tweet.id for tweet in tweets]` as `flush_list` writes them: each id in decimal. */
  function IdLines(tweets: seq<Tweet>): seq<string>
  {
    seq(|tweets|, j requires 0 <= j < |tweets| => Decimal(tweets[j].id))
  }

  /** Each id line holds no line break and parses back to its tweet's id. */
  lemma IdLinesParse(tweets: seq<Tweet>)
    ensures |IdLines(tweets)| == |tweets|
    ensures forall j :: 0 <= j < |tweets| ==>
              '\n' !in IdLines(tweets)[j] && ParseInt(IdLines(tweets)[j]) == Some(tweets[j].id as int)
  {
    forall j | 0 <= j < |tweets|
      ensures '\n' !in IdLines(tweets)[j] && ParseInt(IdLines(tweets)[j]) == Some(tweets[j].id as int)
    {
      DecimalHasNoNewline(tweets[j].id);
      ParseDecimal(tweets[j].id);
    }
  }

  /** `[clean_tweet(tweet) for tweet in tweets]`. */
  function TextLines(tweets: seq<Tweet>): seq<string>
  {
    seq(|tweets|, j requires 0 <= j < |tweets| => CleanTweet(tweets[j]))
  }

  /** The id file of a state group, `{GEO_COVID_TWEET_IDS}/geo/{state}.txt`. */
  function IdFile(state: string): string {
    Path(GeoCovidTweetIds + "/geo", state)
  }

  /** The text file of a state group, `{GEO_COVID_TWEET_TEXT_DIR}/{state}.txt`. */
  function TextFile(state: string): string {
    Path(GeoCovidTweetTextDir, state)
  }

  /** The appends that flushing the groups `keys` makes: per state, its ids, then its texts. */
  function GroupWrites(keys: seq<string>, groups: map<string, seq<Tweet>>): seq<(string, string)>
    requires forall g :: g in keys ==> g in groups
  {
    if keys == [] then []
    else
      var g := keys[|keys| - 1];
      GroupWrites(keys[..|keys| - 1], groups) +
        [(IdFile(g), Lines(IdLines(groups[g]))), (TextFile(g), Lines(TextLines(groups[g])))]
  }

  /**
   * `clean_and_flush_with_geo(tweets, state)`: keeps the English tweets placed in the US, groups
   * them by state, and appends each group's ids and cleaned texts to that state's two files.
   */
  method CleanAndFlushWithGeo(store: FileStore, tweets: seq<Tweet>, state: Option<string>)
    modifies store
    ensures var f := FilterUS(tweets);
            AllPlaced(f) &&
            store.files == AppendAll(old(store.files),
                                     GroupWrites(GroupKeys(Located(f), state, |f|),
                                                 Groups(f, Located(f), state, |f|)))
  {
    var filtered := FilterUS(tweets);
    FilterUSPlaced(tweets);
    var keys, groups := GroupByState(filtered, state);
    FlushGroups(store, keys, groups);
  }

  /** The flushing loop of `clean_and_flush_with_geo`: for each state in insertion order, its ids and then its texts. */
  method FlushGroups(store: FileStore, keys: seq<string>, groups: map<string, seq<Tweet>>)
    requires forall h :: h in keys ==> h in groups
    modifies store
    ensures store.files == AppendAll(old(store.files), GroupWrites(keys, groups))
  {
    for k := 0 to |keys|
      invariant store.files == AppendAll(old(store.files), GroupWrites(keys[..k], groups))
    {
      var g := keys[k];
      var grouped := groups[g];
      ghost var before := GroupWrites(keys[..k], groups);
      PrefixSnoc(keys, k);
      GroupWritesSnoc(keys[..k], g, groups);
      FlushList(store, IdLines(grouped), IdFile(g));
      FlushList(store, TextLines(grouped), TextFile(g));
      AppendAllTwoMore(old(store.files), before, (IdFile(g), Lines(IdLines(grouped))),
                       (TextFile(g), Lines(TextLines(grouped))));
    }
    assert keys[..|keys|] == keys;
  }

  /** The first `k + 1` elements are the first `k` and then element `k`. */
  lemma PrefixSnoc<T>(s: seq<T>, k: nat)
    requires k < |s|
    ensures s[..k + 1] == s[..k] + [s[k]]
  {
  }

  /** The id files and text files of the groups are all different files. */
  lemma GroupFilesApart(g: string, h: string)
    ensures IdFile(g) != TextFile(h)
    ensures IdFile(g) == IdFile(h) <==> g == h
    ensures TextFile(g) == TextFile(h) <==> g == h
  {
    assert GeoCovidTweetIds + "/geo" == StateDataAggregator.GeoTweetIdDir;
    StateDataAggregator.GeoPathsEqual(StateDataAggregator.GeoTweetIdDir, g,
                                      StateDataAggregator.GeoTweetTextDir, h);
    PathInjective(GeoCovidTweetIds + "/geo", g, h);
    PathInjective(GeoCovidTweetTextDir, g, h);
  }

  /** The writes for one more group are its id file's lines, then its text file's lines. */
  lemma GroupWritesSnoc(front: seq<string>, last: string, groups: map<string, seq<Tweet>>)
    requires forall h :: h in front ==> h in groups
    requires last in groups
    ensures GroupWrites(front + [last], groups) ==
              GroupWrites(front, groups) + [(IdFile(last), Lines(IdLines(groups[last]))),
                                            (TextFile(last), Lines(TextLines(groups[last])))]
  {
    var keys := front + [last];
    assert keys[..|keys| - 1] == front && keys[|keys| - 1] == last;
  }

  /** The last group's two writes add to a state's id file only when that state is the last group. */
  lemma GroupWritesStepIds(front: seq<string>, last: string, groups: map<string, seq<Tweet>>, g: string)
    requires forall h :: h in front ==> h in groups
    requires last in groups
    ensures WrittenTo(GroupWrites(front + [last], groups), IdFile(g)) ==
              WrittenTo(GroupWrites(front, groups), IdFile(g)) + (if g == last then Lines(IdLines(groups[g])) else "")
  {
    var a := (IdFile(last), Lines(IdLines(groups[last])));
    var b := (TextFile(last), Lines(TextLines(groups[last])));
    GroupWritesSnoc(front, last, groups);
    GroupFilesApart(g, last);
    WrittenToFirstOfTwo(GroupWrites(front, groups), a, b, IdFile(g));
  }

  /** The last group's two writes add to a state's text file only when that state is the last group. */
  lemma GroupWritesStepTexts(front: seq<string>, last: string, groups: map<string, seq<Tweet>>, g: string)
    requires forall h :: h in front ==> h in groups
    requires last in groups
    ensures WrittenTo(GroupWrites(front + [last], groups), TextFile(g)) ==
              WrittenTo(GroupWrites(front, groups), TextFile(g)) + (if g == last then Lines(TextLines(groups[g])) else "")
  {
    var a := (IdFile(last), Lines(IdLines(groups[last])));
    var b := (TextFile(last), Lines(TextLines(groups[last])));
    GroupWritesSnoc(front, last, groups);
    GroupFilesApart(last, g);
    WrittenToSecondOfTwo(GroupWrites(front, groups), a, b, TextFile(g));
  }

  /** A state that is not a group is never written. */
  lemma {:induction false} GroupNotWritten(keys: seq<string>, groups: map<string, seq<Tweet>>, g: string)
    requires forall h :: h in keys ==> h in groups
    requires g !in keys
    ensures WrittenTo(GroupWrites(keys, groups), IdFile(g)) == ""
    ensures WrittenTo(GroupWrites(keys, groups), TextFile(g)) == ""
  {
    if keys != [] {
      var n := |keys| - 1;
      var front := keys[..n];
      assert keys == front + [keys[n]];
      GroupNotWritten(front, groups, g);
      GroupWritesStepIds(front, keys[n], groups, g);
      GroupWritesStepTexts(front, keys[n], groups, g);
    }
  }

  /** With distinct keys, each state's two files receive exactly that state's group, once. */
  lemma {:induction false} GroupWritten(keys: seq<string>, groups: map<string, seq<Tweet>>, g: string)
    requires forall h :: h in keys ==> h in groups
    requires KeysDistinct(keys) && g in keys
    ensures WrittenTo(GroupWrites(keys, groups), IdFile(g)) == Lines(IdLines(groups[g]))
    ensures WrittenTo(GroupWrites(keys, groups), TextFile(g)) == Lines(TextLines(groups[g]))
  {
    var n := |keys| - 1;
    var front := keys[..n];
    var last := keys[n];
    assert keys == front + [last];
    GroupWritesStepIds(front, last, groups, g);
    GroupWritesStepTexts(front, last, groups, g);
    if g == last {
      assert g !in front;
      GroupNotWritten(front, groups, g);
    } else {
      assert g in front;
      assert KeysDistinct(front);
      GroupWritten(front, groups, g);
    }
  }

  /** A path that belongs to no group is never written. */
  lemma {:induction false} GroupWritesElsewhere(keys: seq<string>, groups: map<string, seq<Tweet>>,
                                                path: string)
    requires forall h :: h in keys ==> h in groups
    requires forall h :: h in keys ==> path != IdFile(h) && path != TextFile(h)
    ensures var w := GroupWrites(keys, groups);
            (forall j :: 0 <= j < |w| ==> w[j].0 != path) && WrittenTo(w, path) == ""
  {
    if keys != [] {
      var n := |keys| - 1;
      var front := keys[..n];
      var last := keys[n];
      assert keys == front + [last];
      GroupWritesElsewhere(front, groups, path);
      var v := GroupWrites(front, groups);
      var a := (IdFile(last), Lines(IdLines(groups[last])));
      var b := (TextFile(last), Lines(TextLines(groups[last])));
      WrittenToTwoMore(v, a, b, path);
      var w := GroupWrites(keys, groups);
      assert w == v + [a, b];
      forall j | 0 <= j < |w|
        ensures w[j].0 != path
      {
        if j < |v| {
          assert w[j] == v[j];
        }
      }
    }
  }

  /**
   * What flushing the groups does: the id file of each state gains exactly that state's ids, one
   * per line, and its text file that state's cleaned texts; no other file changes.
   */
  lemma FlushGroupsEffect(files: map<string, string>, keys: seq<string>,
                          groups: map<string, seq<Tweet>>, g: string, path: string)
    requires forall h :: h in keys ==> h in groups
    requires KeysDistinct(keys)
    ensures var r := AppendAll(files, GroupWrites(keys, groups));
            g in keys ==>
              IdFile(g) in r && r[IdFile(g)] == Content(files, IdFile(g)) + Lines(IdLines(groups[g])) &&
              TextFile(g) in r && r[TextFile(g)] == Content(files, TextFile(g)) + Lines(TextLines(groups[g]))
    ensures var r := AppendAll(files, GroupWrites(keys, groups));
            (forall h :: h in keys ==> path != IdFile(h) && path != TextFile(h)) ==>
              SameFile(files, r, path)
  {
    var w := GroupWrites(keys, groups);
    if g in keys {
      GroupWritten(keys, groups, g);
      AppendAllEffect(files, w, IdFile(g));
      AppendAllEffect(files, w, TextFile(g));
      var k :| 0 <= k < |keys| && keys[k] == g;
      GroupWriteAt(keys, groups, k);
    }
    if forall h :: h in keys ==> path != IdFile(h) && path != TextFile(h) {
      GroupWritesElsewhere(keys, groups, path);
      AppendAllEffect(files, w, path);
    }
  }

  /** The `k`-th state's two appends are in the writes. */
  lemma {:induction false} GroupWriteAt(keys: seq<string>, groups: map<string, seq<Tweet>>, k: nat)
    requires forall h :: h in keys ==> h in groups
    requires k < |keys|
    ensures exists j :: 0 <= j < |GroupWrites(keys, groups)| &&
                        GroupWrites(keys, groups)[j].0 == IdFile(keys[k])
    ensures exists j :: 0 <= j < |GroupWrites(keys, groups)| &&
                        GroupWrites(keys, groups)[j].0 == TextFile(keys[k])
  {
    var n := |keys| - 1;
    var front := keys[..n];
    var last := keys[n];
    assert keys == front + [last];
    var v := GroupWrites(front, groups);
    var a := (IdFile(last), Lines(IdLines(groups[last])));
    var b := (TextFile(last), Lines(TextLines(groups[last])));
    var w := GroupWrites(keys, groups);
    assert w == v + [a, b];
    if k == n {
      assert w[|v|].0 == IdFile(keys[k]);
      assert w[|v| + 1].0 == TextFile(keys[k]);
    } else {
      assert keys[k] == front[k];
      GroupWriteAt(front, groups, k);
      var i :| 0 <= i < |v| && v[i].0 == IdFile(keys[k]);
      var t :| 0 <= t < |v| && v[t].0 == TextFile(keys[k]);
      assert w[i] == v[i] && w[t] == v[t];
    }
  }

  /**
   * Each group's two files stay line-aligned: the appended id text and the appended tweet text
   * both split into one line per tweet of the group, in the same order.
   */
  lemma GroupLinesAligned(grouped: seq<Tweet>)
    ensures var ids := Split(Lines(IdLines(grouped)), '\n');
            var texts := Split(Lines(TextLines(grouped)), '\n');
            |ids| == |texts| == |grouped| + 1 &&
            forall j :: 0 <= j < |grouped| ==>
              ParseInt(ids[j]) == Some(grouped[j].id as int) && texts[j] == CleanTweet(grouped[j])
  {
    IdLinesParse(grouped);
    LinesSplit(IdLines(grouped));
    LinesSplit(TextLines(grouped));
  }

  /** The English tweets of a batch, cleaned, as `clean_and_flush_without_geo` writes them. */
  function EnglishTexts(tweets: seq<Tweet>): (r: seq<string>)
    ensures |r| <= |tweets|
    ensures forall j :: 0 <= j < |r| ==> '\n' !in r[j]
  {
    if tweets == [] then []
    else
      var rest := EnglishTexts(tweets[1..]);
      if tweets[0].lang == "en" then [CleanTweet(tweets[0])] + rest else rest
  }

  /** The texts written are exactly the cleaned texts of the English tweets. */
  lemma {:induction false} EnglishTextsMembers(tweets: seq<Tweet>)
    ensures forall t :: t in tweets && t.lang == "en" ==> CleanTweet(t) in EnglishTexts(tweets)
    ensures forall x :: x in EnglishTexts(tweets) ==> exists t :: t in tweets && t.lang == "en" && x == CleanTweet(t)
  {
    if tweets != [] {
      EnglishTextsMembers(tweets[1..]);
      assert tweets == [tweets[0]] + tweets[1..];
    }
  }

  /**
   * `clean_and_flush_without_geo(tweets)`. The file name carries `time.time()`, which is given
   * here as `timestamp`, already rendered as text.
   */
  method CleanAndFlushWithoutGeo(store: FileStore, tweets: seq<Tweet>, timestamp: string)
    modifies store
    ensures store.files ==
              AppendSpec(old(store.files), CovidTweetTextDir + "/tweets_" + timestamp + ".txt",
                         Lines(EnglishTexts(tweets)))
  {
    var fileName := CovidTweetTextDir + "/tweets_" + timestamp + ".txt";
    var tweetText := EnglishTexts(tweets);
    FlushList(store, tweetText, fileName);
  }

  /** Every English tweet of the batch is written as exactly one line of the file. */
  lemma WithoutGeoOneLinePerTweet(tweets: seq<Tweet>)
    ensures Split(Lines(EnglishTexts(tweets)), '\n') == EnglishTexts(tweets) + [""]
  {
    LinesSplit(EnglishTexts(tweets));
  }

  /** The texts of a concatenation are the texts of each part, in order: nothing is merged or dropped. */
  lemma {:induction false} EnglishTextsAppend(a: seq<Tweet>, b: seq<Tweet>)
    ensures EnglishTexts(a + b) == EnglishTexts(a) + EnglishTexts(b)
  {
    if a == [] {
      assert a + b == b;
    } else {
      assert (a + b)[0] == a[0] && (a + b)[1..] == a[1..] + b;
      EnglishTextsAppend(a[1..], b);
    }
  }

  /** A single tweet gives its cleaned text when it is English, and nothing otherwise. */
  lemma EnglishTextsOne(t: Tweet)
    ensures EnglishTexts([t]) == if t.lang == "en" then [CleanTweet(t)] else []
  {
  }

  /** The lines written for two batches of tweets are those of the first followed by those of the second. */
  lemma WithoutGeoLinesAppend(a: seq<Tweet>, b: seq<Tweet>)
    ensures Lines(EnglishTexts(a + b)) == Lines(EnglishTexts(a)) + Lines(EnglishTexts(b))
  {
    EnglishTextsAppend(a, b);
    LinesAppend(EnglishTexts(a), EnglishTexts(b));
  }

  /** One tweet contributes exactly one line, its cleaned text, when it is English, and no line otherwise. */
  lemma WithoutGeoLineOfTweet(t: Tweet)
    ensures Lines(EnglishTexts([t])) == if t.lang == "en" then CleanTweet(t) + "\n" else ""
  {
    EnglishTextsOne(t);
    if t.lang == "en" {
      assert Lines([CleanTweet(t)]) == CleanTweet(t) + "\n" + Lines([]);
    }
  }
}
