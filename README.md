# fp-mythbusters Twitter pipeline, modelled in Dafny

This project models the Twitter half of the fp-mythbusters COVID dashboard. That half:

- fetches COVID tweets by id, in batches of 100, and writes the English ones to text files;
- for geo-tagged tweets, keeps those placed in the US, groups them by state, and appends each
  group's ids and cleaned texts to that state's two files;
- merges the per-state files written under full state names into files named by the two-letter
  code, and deletes the full-name files;
- reads the four Twitter credentials from a `NAME=value` secrets file through a memoising cache;
- prepares word-cloud input: the token filter, the flattening of cleaned tweets, and the state mask
  picture (thresholded, then framed in white);
- in the dashboard: the state FIPS list, the county filters, the time-series selection and the
  two-row layout of the example tweets.

The modules are:

| module | file | models |
|---|---|---|
| `Text` | `text.dfy` | `str.strip`, `split`, `join`, `startswith`, `replace` and `int`/`str` on the characters the program handles |
| `Files` | `files.dfy` | the file system as a map from path to content; append (`"a+"`), remove, exists |
| `TweetFetcher` | `tweet_fetcher.dfy` | `twitter/tweet_fetcher.py` |
| `StateDataAggregator` | `state_data_aggregator.dfy` | `twitter/state_data_aggregator.py` |
| `WordCloud` | `word_cloud.dfy` | `twitter/word_cloud.py` |
| `SecretFetcher` | `twitter_secret_fetcher.dfy` | `twitter/twitter_secret_fetcher.py` |
| `Dashboard` | `streamlit_app.dfy` | the state list, county filters, time-series selection and tweet layout of `streamlit_app.py` |
| `Results` | `results.dfy` | `Option` and `Result` |

How the code is modelled:

- **Imperative code stays imperative.** The state-changing parts are classes with `modifies`
  clauses: the file store and the secret cache. The loops are methods with invariants:
  - the batch loop of `get_tweets`;
  - the grouping and flushing loops of `clean_and_flush_with_geo`;
  - the `aggregate` and `delete_state_files` loops;
  - the line scan of `get_secret`;
  - the in-place thresholding of the mask (an `array2`);
  - the column layout of the tweets.

  Each method is proved equal to a specification function. The properties are then lemmas about
  those functions.
- **The Twitter API is a parameter.** `respond(batch, attempt)` says what the `attempt`-th lookup of
  a batch returns: tweets, a rate-limit error or another error. A run of `get_tweets` is recorded as
  its trace of lookups, sleeps and flushes.
- **Python's unbound local is modelled.** A run that reaches the flush with `tweets` never assigned
  (an `UnboundLocalError` in Python) is flagged `unbound` and stops.

## Model

| member | source | states |
|---|---|---|
| TweetFetcher.ShouldSample | twitter/tweet_fetcher.py:52-56 | With `SAMPLE_PERCENTAGE` equal to 1, every id is sampled whatever the random draw is |
| TweetFetcher.SampleTweetIdsFromFile | twitter/tweet_fetcher.py:40-49 | The ids come back, in order and one per line, exactly when every stripped line parses as an int. Otherwise the result is the index of the first line that does not parse, and every line before it parses |
| TweetFetcher.LookupWithRetry | twitter/tweet_fetcher.py:84-98 | One batch: a lookup; after a rate-limit error a 15-minute sleep then one retry; after any other `TweepError` one immediate retry. `tweets` keeps its earlier value when the retry fails too |
| TweetFetcher.GetTweets | twitter/tweet_fetcher.py:79-105 | The loop's trace equals the recursive run over the slices `ids[i:i+100]`, with a flush after each batch. The run stops at a flush with `tweets` unbound |
| TweetFetcher.BatchesCover | twitter/tweet_fetcher.py:83-104 | The slices the loop visits are consecutive, each at most 100 long, and concatenate back to the id list |
| TweetFetcher.BatchCounts | twitter/tweet_fetcher.py:84-98 | One batch makes one lookup, plus one more after a `TweepError` of either kind, plus one sleep after a rate limit |
| TweetFetcher.RunCounts | twitter/tweet_fetcher.py:79-105 | A run that completes flushes once per batch, sleeps once per rate-limited batch, and looks up once per batch plus once per failed first lookup |
| TweetFetcher.BoundStaysBound | twitter/tweet_fetcher.py:84-103 | Once a lookup has succeeded, no later batch can hit the unbound `tweets` |
| TweetFetcher.RunUnboundIff | twitter/tweet_fetcher.py:84-103 | `get_tweets` fails on an unbound `tweets` exactly when the id list is non-empty and both lookups of the first batch fail |
| TweetFetcher.RunSleeps | twitter/tweet_fetcher.py:89-93 | Every sleep lasts 15 minutes and lies between a lookup and an identical retry |
| TweetFetcher.RunLookups | twitter/tweet_fetcher.py:83-87 | Every lookup asks for one of the slices `ids[i:i+100]` |
| TweetFetcher.RateLimitThenSuccess | twitter/tweet_fetcher.py:79-105 | 150 ids where the first lookup is rate limited give two batches, one sleep, and both batches flushed |
| TweetFetcher.FailedRetryReflushes | twitter/tweet_fetcher.py:84-103 | A batch whose lookup and retry both fail flushes the previous batch's tweets again |
| TweetFetcher.CleanTweet | twitter/tweet_fetcher.py:149-159 | The text is the full text, else the retweeted status's full text, else the text. The result is that text with its line breaks removed, or "" when there is no text |
| TweetFetcher.WithoutLineBreaksAppend | twitter/tweet_fetcher.py:159 | Line breaks are removed piecewise over a concatenation, so the other characters keep their order |
| TweetFetcher.WithoutLineBreaksOne | twitter/tweet_fetcher.py:159 | A single character is dropped exactly when it is `\n` or `\r`. With the concatenation lemma this fixes the cleaned text uniquely |
| TweetFetcher.GetStateFromTweet | twitter/tweet_fetcher.py:129-137 | An `admin` place always yields a state. Other places yield one only when it is two characters long. A state never holds a comma and is stripped |
| TweetFetcher.StateFromName | twitter/tweet_fetcher.py:129-137 | An `admin` place gives the stripped text before its first comma. Any other place gives the stripped text after its last comma, and only when that is two characters long. A name with no comma is its own field |
| TweetFetcher.FilterUS | twitter/tweet_fetcher.py:110-111 | Keeps only English tweets with a place in country `US`, and every such tweet |
| TweetFetcher.FilterUSAppend | twitter/tweet_fetcher.py:110-111 | Filtering a concatenation filters each part, so the kept tweets keep their order and multiplicity |
| TweetFetcher.FilterUSPlaced | twitter/tweet_fetcher.py:110-115 | Every kept tweet has a place, so `get_state_from_tweet` can read it |
| TweetFetcher.Located | twitter/tweet_fetcher.py:113-115 | One state lookup per filtered tweet |
| TweetFetcher.LocateState | twitter/tweet_fetcher.py:114-115 | The lookup for the `k`-th tweet is `get_state_from_tweet` of that tweet |
| TweetFetcher.GroupByState | twitter/tweet_fetcher.py:112-120 | The loop builds `tweets_by_state` and its key order exactly as the per-tweet definition says |
| TweetFetcher.GroupTweet | twitter/tweet_fetcher.py:113-120 | One pass advances the state in force, the key order and the groups by one tweet |
| TweetFetcher.GroupsSkip | twitter/tweet_fetcher.py:116 | A tweet whose state in force is falsy changes no group |
| TweetFetcher.GroupsJoin | twitter/tweet_fetcher.py:117-118 | A tweet whose state is already a key is appended to that key's list, and nothing else changes |
| TweetFetcher.GroupsOpen | twitter/tweet_fetcher.py:119-120 | A tweet whose state is new opens a list holding just that tweet and adds the key at the end |
| TweetFetcher.GroupKeysMembers | twitter/tweet_fetcher.py:112-120 | A state is a key exactly when its group is non-empty |
| TweetFetcher.GroupKeysDistinct | twitter/tweet_fetcher.py:112-120 | No key appears twice and no key is the empty string |
| TweetFetcher.MembersAreFromBatch | twitter/tweet_fetcher.py:112-120 | A group holds only tweets of the batch and no more of them than have been read |
| TweetFetcher.StateSticks | twitter/tweet_fetcher.py:113-115 | Once `state` is set, it keeps that value for the rest of the batch |
| TweetFetcher.AtMostOneGroup | twitter/tweet_fetcher.py:112-120 | One call opens at most one group: the state in force once a tweet has yielded one |
| TweetFetcher.FirstStateDecides | twitter/tweet_fetcher.py:113-120 | From the first truthy state on, every later tweet joins that state's group whatever its own place says, and no new key appears |
| TweetFetcher.PresetState | twitter/tweet_fetcher.py:108-120 | With a state code passed in, the whole filtered batch becomes the one group of that code |
| TweetFetcher.FlushList | twitter/tweet_fetcher.py:162-164 | The file gains one line per item, in order; no other file changes |
| TweetFetcher.IdLinesParse | twitter/tweet_fetcher.py:123-124 | Each written id line holds no line break and parses back to its tweet's id |
| TweetFetcher.CleanAndFlushWithGeo | twitter/tweet_fetcher.py:108-126 | The store after the call is the old store plus, per state in key order, that group's id lines and then its cleaned text lines |
| TweetFetcher.FlushGroups | twitter/tweet_fetcher.py:122-126 | The flush loop makes exactly the appends listed per state: ids, then texts |
| TweetFetcher.GroupFilesApart | twitter/tweet_fetcher.py:124-126 | Id files and text files never coincide, and each names one state |
| TweetFetcher.GroupNotWritten | twitter/tweet_fetcher.py:122-126 | A state that is not a key gets nothing written |
| TweetFetcher.GroupWritten | twitter/tweet_fetcher.py:122-126 | With distinct keys, each state's two files receive exactly its group's lines, once |
| TweetFetcher.GroupWritesElsewhere | twitter/tweet_fetcher.py:122-126 | A path that is not a group's file is never written |
| TweetFetcher.FlushGroupsEffect | twitter/tweet_fetcher.py:122-126 | Each state's id and text files end with exactly that state's lines; every other file is unchanged |
| TweetFetcher.GroupWriteAt | twitter/tweet_fetcher.py:122-126 | The `k`-th state's id append and text append are both among the writes |
| TweetFetcher.GroupLinesAligned | twitter/tweet_fetcher.py:122-126 | A group's id lines and text lines correspond one to one, in order: line `j` holds the id and the cleaned text of tweet `j` |
| TweetFetcher.EnglishTexts | twitter/tweet_fetcher.py:145 | At most one text per tweet, none with a line break |
| TweetFetcher.EnglishTextsMembers | twitter/tweet_fetcher.py:145 | The texts are exactly the cleaned texts of the English tweets |
| TweetFetcher.EnglishTextsAppend | twitter/tweet_fetcher.py:145 | The texts of a concatenation are the texts of each part, in order |
| TweetFetcher.CleanAndFlushWithoutGeo | twitter/tweet_fetcher.py:140-146 | Appends the English texts, one per line, to `tweets_<timestamp>.txt`; no other file changes |
| TweetFetcher.WithoutGeoOneLinePerTweet | twitter/tweet_fetcher.py:140-146 | The written text splits back into the cleaned English texts, one per line |
| TweetFetcher.WithoutGeoLinesAppend | twitter/tweet_fetcher.py:140-146 | The lines written for two runs of tweets are those of the first followed by those of the second |
| TweetFetcher.WithoutGeoLineOfTweet | twitter/tweet_fetcher.py:140-146 | An English tweet contributes exactly one line, its cleaned text; any other tweet contributes none. With the concatenation lemma, the file gains one line per English tweet, in order |
| StateDataAggregator.StateMap | twitter/state_data_aggregator.py:3-57 | The table holds 53 entries |
| StateDataAggregator.StateMapWellFormed | twitter/state_data_aggregator.py:3-57 | No name or code repeats, every code has two characters and no name does |
| StateDataAggregator.WellFormedAppend | twitter/state_data_aggregator.py:3-57 | Joining well-formed tables that share no name and no code gives a well-formed table |
| StateDataAggregator.GeoPathsEqual | twitter/state_data_aggregator.py:59-60 | Files in the two directories coincide only for the same directory and the same name |
| StateDataAggregator.AggregateState | twitter/state_data_aggregator.py:69-74 | When `{state}.txt` exists its content is appended to `{code}.txt`; otherwise the store is unchanged |
| StateDataAggregator.AggregateStateEffect | twitter/state_data_aggregator.py:69-74 | Only the code file can change, and it gains the state file's content |
| StateDataAggregator.Aggregate | twitter/state_data_aggregator.py:63-66 | The store after the call is the old store merged entry by entry, id directory then text directory |
| StateDataAggregator.AggregateTable | twitter/state_data_aggregator.py:64-66 | The loop performs the merge of every entry in order |
| StateDataAggregator.DeleteStateFile | twitter/state_data_aggregator.py:83-86 | Removes `{state}.txt` when it exists; otherwise the store is unchanged |
| StateDataAggregator.DeleteStateFiles | twitter/state_data_aggregator.py:77-80 | Removes every entry's name file from both directories |
| StateDataAggregator.DeleteTable | twitter/state_data_aggregator.py:78-80 | The loop performs the removals of every entry in order |
| StateDataAggregator.WellFormedPrefix | twitter/state_data_aggregator.py:3-57 | Every prefix of a well-formed table is well formed |
| StateDataAggregator.NotInCodePaths | twitter/state_data_aggregator.py:69-74 | A code no entry has names no code file of the table |
| StateDataAggregator.NameNotInCodePaths | twitter/state_data_aggregator.py:69-74 | A name's file is never a code file, because names and codes differ in length |
| StateDataAggregator.AggregateEntryEffect | twitter/state_data_aggregator.py:64-66 | One entry merges into both of its code files and changes no other file |
| StateDataAggregator.EarlierEntriesKept | twitter/state_data_aggregator.py:64-66 | A later entry with another code does not disturb what earlier entries merged |
| StateDataAggregator.AggregateEffect | twitter/state_data_aggregator.py:63-66 | On a well-formed table, each code file ends as its old content followed by its state file's content, and every other file is unchanged |
| StateDataAggregator.AggregateTwice | twitter/state_data_aggregator.py:63-74 | Running `aggregate` twice appends a state file's content to its code file twice; the state file is unchanged |
| StateDataAggregator.DeleteEffect | twitter/state_data_aggregator.py:77-86 | `delete_state_files` removes exactly the table's name files from both directories |
| StateDataAggregator.DeleteIdempotent | twitter/state_data_aggregator.py:77-86 | Deleting twice is deleting once |
| StateDataAggregator.DeleteKeepsCodeFiles | twitter/state_data_aggregator.py:77-86 | The code files are never touched by the deletion |
| StateDataAggregator.NameAndCodePathsDisjoint | twitter/state_data_aggregator.py:59-86 | Name files and code files never overlap |
| StateDataAggregator.AggregateWithoutStateFiles | twitter/state_data_aggregator.py:63-74 | With no state file present, `aggregate` changes nothing |
| StateDataAggregator.AggregateAfterDelete | twitter/state_data_aggregator.py:63-86 | `aggregate` run after `delete_state_files` changes nothing |
| WordCloud.TweetFile | twitter/word_cloud.py:18-24 | With a non-empty state, the state's geo tweet file; otherwise the English sample file |
| WordCloud.StateTweetFileIsFetcherOutput | twitter/word_cloud.py:18-24 | From `../data`, a state's word cloud reads the text file the fetcher writes for that state |
| WordCloud.ValidToken | twitter/word_cloud.py:42-49 | A valid token has at least four characters. It is not a stopword, does not mention covid or corona, is no `//t.co` fragment and does not end in `...`. `https` is rejected |
| WordCloud.ShortMarkersRejectedByLength | twitter/word_cloud.py:42-49 | `rt` and `http` are rejected; the length test alone already rejects them |
| WordCloud.Kept | twitter/word_cloud.py:65 | A token contributes itself stripped exactly when that is a valid token, otherwise nothing |
| WordCloud.CleanTokens | twitter/word_cloud.py:52-67 | The filter never lengthens the token list |
| WordCloud.CleanTokensAreClean | twitter/word_cloud.py:42-67 | Every word kept is valid and stripped |
| WordCloud.CleanTokensAppend | twitter/word_cloud.py:65 | Filtering distributes over concatenation, so the kept words keep their order |
| WordCloud.CleanTokensMembers | twitter/word_cloud.py:65 | A word is kept exactly when some token strips to it and it is valid |
| WordCloud.CleanTokensKeepsClean | twitter/word_cloud.py:65 | Tokens that are already valid and stripped all survive, unchanged |
| WordCloud.CleanTokensIdempotent | twitter/word_cloud.py:65 | Cleaning twice is cleaning once |
| WordCloud.CleanTweets | twitter/word_cloud.py:70-71 | One cleaned list per tweet |
| WordCloud.Flatten | twitter/word_cloud.py:74-75 | The length is the total of the inner lengths |
| WordCloud.FlattenAppend | twitter/word_cloud.py:74-75 | Flattening distributes over concatenation |
| WordCloud.FlattenPosition | twitter/word_cloud.py:74-75 | Element `j` of list `i` sits after all elements of the earlier lists |
| WordCloud.CleanedWordsAreCleanStream | twitter/word_cloud.py:134-141 | Cleaning tweet by tweet and then flattening equals cleaning the concatenated tokens |
| WordCloud.AppendWhiteRow | twitter/word_cloud.py:78-83 | One white row after the last row (top) or before the first; the old rows are unchanged |
| WordCloud.AppendWhiteCol | twitter/word_cloud.py:86-91 | One white column after the last column (left) or before the first; the old pixels are unchanged |
| WordCloud.PaddingRoundFrames | twitter/word_cloud.py:108-111 | One round of the padding loop puts a one-pixel white frame around the picture |
| WordCloud.Padded | twitter/word_cloud.py:107-111 | `k` rounds of padding keep the picture rectangular |
| WordCloud.PaddedShape | twitter/word_cloud.py:107-111 | `k` rounds of padding give the picture inside a white frame `k` pixels wide |
| WordCloud.Binarize | twitter/word_cloud.py:103-104 | The two passes send a channel to 255 when it exceeds 10 and to 0 otherwise |
| WordCloud.MapChannels | twitter/word_cloud.py:103-104 | The in-place pass replaces every channel of every pixel by the function of itself |
| WordCloud.Thresholded | twitter/word_cloud.py:103-104 | Thresholding keeps the picture's shape |
| WordCloud.ToArray | twitter/word_cloud.py:102 | The new array holds the picture pixel for pixel |
| WordCloud.FromArray | twitter/word_cloud.py:102-113 | The picture holds the array pixel for pixel |
| WordCloud.GetStateMask | twitter/word_cloud.py:94-113 | No mask when the state is empty or its picture is missing. Otherwise the result is the thresholded picture padded five times |
| WordCloud.StateMaskShape | twitter/word_cloud.py:94-113 | The mask is ten pixels taller and wider than the picture. Its five-pixel border is white and its interior is the thresholded picture |
| WordCloud.FramedByBorder | twitter/word_cloud.py:107-111 | Outside the original's place, a framed picture is white |
| WordCloud.FramedByInterior | twitter/word_cloud.py:107-111 | Inside the frame, pixel `(i+k, j+k)` is the original's pixel `(i, j)` |
| SecretFetcher.FirstMatch | twitter/twitter_secret_fetcher.py:22-23 | Finds the first line starting with the name, or reports that none does |
| SecretFetcher.ValueOf | twitter/twitter_secret_fetcher.py:25 | An IndexError exactly when the line has no `=`; otherwise the stripped second field |
| SecretFetcher.SecretStore.constructor | twitter/twitter_secret_fetcher.py:12 | The cache starts empty |
| SecretFetcher.SecretStore.GetSecret | twitter/twitter_secret_fetcher.py:17-28 | A hit returns the cached value. A missing file gives FileNotFound. The first matching line decides the result and caches it. No match gives "" and caches nothing |
| SecretFetcher.SecretStore.GetApiKey | twitter/twitter_secret_fetcher.py:31-32 | `get_secret("API_KEY")` |
| SecretFetcher.SecretStore.GetApiSecretKey | twitter/twitter_secret_fetcher.py:35-36 | `get_secret("API_SECRET_KEY")` |
| SecretFetcher.SecretStore.GetAccessToken | twitter/twitter_secret_fetcher.py:39-40 | `get_secret("ACCESS_TOKEN")` |
| SecretFetcher.SecretStore.GetAccessTokenSecret | twitter/twitter_secret_fetcher.py:43-44 | `get_secret("ACCESS_TOKEN_SECRET")` |
| SecretFetcher.CacheHitIgnoresFile | twitter/twitter_secret_fetcher.py:18-19 | A cached name is answered from the cache whatever the file holds, even when the file is gone |
| SecretFetcher.CacheGrowsOnly | twitter/twitter_secret_fetcher.py:17-28 | Entries are never overwritten, and at most the asked name is added |
| SecretFetcher.GetSecretIdempotent | twitter/twitter_secret_fetcher.py:17-28 | A secret once found is returned again unchanged, whatever the file later holds |
| SecretFetcher.MissNotCached | twitter/twitter_secret_fetcher.py:17-28 | With no matching line the answer is "" and the cache is unchanged |
| SecretFetcher.FirstLineDecides | twitter/twitter_secret_fetcher.py:22-27 | The first line starting with the name decides, whatever later lines hold |
| SecretFetcher.ValueOfLine | twitter/twitter_secret_fetcher.py:1-9 | A line `NAME=value` with a trimmed value yields `value` |
| SecretFetcher.SecretOnLine | twitter/twitter_secret_fetcher.py:17-28 | On an empty cache, the value on the first line for a name is returned |
| SecretFetcher.DocumentedApiKey | twitter/twitter_secret_fetcher.py:1-9 | In the documented file, `get_api_key` returns the first value |
| SecretFetcher.DocumentedApiSecretKey | twitter/twitter_secret_fetcher.py:1-9 | In the documented file, `get_api_secret_key` returns the second value |
| SecretFetcher.DocumentedAccessToken | twitter/twitter_secret_fetcher.py:1-9 | In the documented file, `get_access_token` returns the third value |
| SecretFetcher.DocumentedAccessTokenSecret | twitter/twitter_secret_fetcher.py:1-9 | In the documented file, `get_access_token_secret` returns the fourth value, though `ACCESS_TOKEN` is its prefix |
| SecretFetcher.AccessTokenMatchesSecretLine | twitter/twitter_secret_fetcher.py:22-27 | Matching is by prefix: with the `ACCESS_TOKEN_SECRET` line first, the access-token lookup returns the token secret |
| Files.PathInjective | twitter/state_data_aggregator.py:70-72 | Within one directory, `{directory}/{name}.txt` paths are equal only for equal names |
| Files.LinesAppend | twitter/tweet_fetcher.py:162-164 | Writing two lists of lines in turn is writing their concatenation |
| Files.LinesSplit | twitter/tweet_fetcher.py:162-164 | Lines written from items without line breaks split back into exactly those items |
| Files.AppendSpec | twitter/tweet_fetcher.py:163-164 | Appending leaves the path holding its old content (or "") followed by the text; every other file is unchanged |
| Files.AppendAllEffect | twitter/tweet_fetcher.py:122-126 | After a sequence of appends, a path exists exactly when it existed or was written. It holds its old content followed by everything written to it, in order |
| Files.AppendAllConcat | twitter/tweet_fetcher.py:122-126 | Appending two sequences in turn is appending their concatenation |
| Files.FileStore.Append | twitter/tweet_fetcher.py:163-164 | The store is updated as the append specification says |
| Files.FileStore.Remove | twitter/state_data_aggregator.py:86 | An existing file is removed and nothing else changes |
| Text.Strip | twitter/tweet_fetcher.py:47 | The result is the input with exactly its leading and trailing whitespace removed |
| Text.StripIdempotent | twitter/word_cloud.py:65 | Stripping twice is stripping once |
| Text.Split | twitter/twitter_secret_fetcher.py:25 | The fields hold no separator and join back to the input |
| Text.SplitJoin | twitter/twitter_secret_fetcher.py:25 | Splitting a join of separator-free fields gives the fields back |
| Text.SplitSecondField | twitter/twitter_secret_fetcher.py:25-26 | A second field exists exactly when the separator occurs |
| Text.RemoveChar | twitter/tweet_fetcher.py:159 | Every occurrence of the character is removed and the other characters stay, with their counts |
| Text.RemoveCharAppend | twitter/tweet_fetcher.py:159 | Removal over a concatenation is removal from each part, so the kept characters stay in order |
| Text.ParseDecimal | twitter/tweet_fetcher.py:47 | `int(str(n)) == n` for every natural `n` |
| Dashboard.StateRows | streamlit_app.py:31 | Keeps exactly the rows with a positive State FIPS |
| Dashboard.StateFipsMap | streamlit_app.py:32 | The dictionary's keys are exactly the row names |
| Dashboard.StateFipsPositive | streamlit_app.py:29-32 | Every state listed has a positive code, and every named positive row is listed |
| Dashboard.StateFipsValues | streamlit_app.py:32 | Every entry of the dictionary comes from a row |
| Dashboard.InStateCountyRange | streamlit_app.py:145-146 | The two USDA filters together accept exactly the codes `state * 1000 + c` for `c` from 1 to 999 |
| Dashboard.InStateCountyNotStateRow | streamlit_app.py:145-146 | A county of the state is a code in the state's range other than the state row |
| Dashboard.UsdaCounties | streamlit_app.py:145-146 | Keeps exactly the county rows of the selected state |
| Dashboard.CovidRows | streamlit_app.py:169 | Keeps exactly the rows in the state's range, the state-level row included |
| Dashboard.UsdaIsCovidWithoutStateRow | streamlit_app.py:145-169 | The USDA filter is the COVID filter with the state-level row removed |
| Dashboard.UsdaCountiesAppend | streamlit_app.py:145-146 | The filters keep the rows' order |
| Dashboard.SelectedNames | streamlit_app.py:230 | Keeps exactly the rows whose area name is selected |
| Dashboard.TimeSeriesRows | streamlit_app.py:227-230 | "all counties" keeps every row. Otherwise exactly the rows of the selected counties are kept |
| Dashboard.NamingEveryCountySelectsAll | streamlit_app.py:225-230 | Selecting every county by name gives the same rows as "all counties" |
| Dashboard.DrawEmbeddedTweets | streamlit_app.py:254-268 | The first half of the tweets (rounded down) go one per column of row 1, the rest one per column of row 2, in order. A row is requested only when it has a column |

## Left out

- `twitter/lda_tweet.py` is not part of this model.
- The Twitter API is not modelled: tweepy, authentication, the network and `time.sleep`.
  - `connect_to_twitter` is left out.
  - A lookup's outcome is the parameter `respond`.
  - A sleep is an event in the trace.
- `sample_tweet_ids` is left out. It lists a directory (`os.listdir`) and reads files; `sample_tweet_ids_from_file` is modelled on the file's lines.
- `ShouldSample` does not model `random.random()`: with `SAMPLE_PERCENTAGE` equal to 1 the function returns before drawing, so the draw is an ignored parameter.
- `LookupWithRetry` models only `TweepError` outcomes, its rate-limit subclass and other `TweepError`s. An exception that is not a `TweepError` escapes `get_tweets` from the first lookup and from the retry after a rate limit. The bare `except:` of the other retry swallows it. Those paths are not modelled.
- `get_tweets_by_state` is left out. It reads `STATE_TO_CODE_MAP`, which `state_data_aggregator.py` does not define. Its effect, a preset state code, is stated by `PresetState`.
- `get_html` and `main` are left out (network, printing and script entry).
- `CleanAndFlushWithoutGeo` takes the rendering of `time.time()` as a parameter: the clock and float formatting are not modelled.
- `SampleTweetIdsFromFile`: `int()` is modelled for ASCII digits with an optional sign. Python also accepts Unicode digits and underscores between digits.
- Printing is left out: the progress messages of `get_tweets` and `aggregate_state`, and the error messages printed when a lookup fails.
- Tweet fields other than those read are not modelled. Tweet ids are natural numbers.
- `word_to_pos`, the NLTK tokenizer, the URL regex, lowercasing and lemmatization are left out (external NLTK code).
  - `CleanTokens` starts from the tokens the tokenizer returns.
  - `tweet.replace("'", "")`, whose result is discarded, is left out: it changes nothing.
- `CleanTokens`: stopwords are a set of strings. `get_cleaned_tweet_words` passes `stopwords=None`, with which `token not in stopwords` would raise a `TypeError`; that call is not modelled.
- `WordCloud.get_tweets` is modelled by the path it opens. Reading the file is left out.
- `create_wordcloud` and `get_wordcloud` are left out: they render with the external `wordcloud` library and write an image.
- `GetStateMask` receives the picture as an `Option`: `None` when `state_pics/{state}.jpg` does not exist.
  - Image decoding (PIL) is left out.
  - Pictures are three-channel RGB. Grayscale or alpha images are not modelled.
- `StateFipsMap` does not model `sort_values("Name")`: a Python dict orders its keys but the map does not. Among rows sharing a name, the later row's code wins.
- The CSV loading, pandas data preparation, correlation, Altair charts and Streamlit widgets of `streamlit_app.py` are left out: the dashboard is modelled only in its state list, filters, time-series selection and tweet layout.
- `DrawEmbeddedTweets`: `get_saved_tweet_oembeds` is not modelled; the oEmbed strings are its parameter. Streamlit rendering is modelled as the markdown each column receives.
- Concurrency, file permissions and I/O errors other than a missing file are not modelled.
