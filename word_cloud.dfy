/**
 * The word-cloud preparation: which tweet file is read, the token filter applied after the
 * tokenizer, flattening the per-tweet token lists, and the state-outline mask (thresholding
 * the picture in place, then padding it with a white frame five pixels wide).
 */
module WordCloud {
  import opened Results
  import opened Text
  import opened Files
  import TweetFetcher

  const TweetDataDir: string := "tweets"
  const TweetFileName: string := "covid_tweets/english_tweets_24_000.txt"
  const GeoTweetDir: string := "geo_covid_tweets"

  /** The file `get_tweets` reads: the state's geo-tagged tweets when a state is given, else the English sample. */
  function TweetFile(dataDir: string, state: Option<string>): (path: string)
    ensures state.Some? && state.value != "" ==>
              path == Path(dataDir + "/" + TweetDataDir + "/" + GeoTweetDir, state.value)
    ensures state.None? || state.value == "" ==> path == dataDir + "/" + TweetDataDir + "/" + TweetFileName
  {
    if state.Some? && state.value != "" then
      dataDir + "/" + TweetDataDir + "/" + GeoTweetDir + "/" + state.value + ".txt"
    else
      dataDir + "/" + TweetDataDir + "/" + TweetFileName
  }

  /** Run from the `twitter` directory with data directory `../data`, a state's word cloud reads the
      very file the fetcher appends that state's cleaned tweet texts to. */
  lemma StateTweetFileIsFetcherOutput(state: string)
    requires state != ""
    ensures TweetFile("../data", Some(state)) == TweetFetcher.TextFile(state)
  {
    assert "../data" + "/" + TweetDataDir + "/" + GeoTweetDir == TweetFetcher.GeoCovidTweetTextDir;
  }

  // ---------------------------------------------------------------------------------------------
  // Tokens

  /** `valid_token`: long enough, not a retweet marker or URL fragment, not a truncated word, not
      about corona/covid itself, and not a stopword. */
  function ValidToken(token: string, stopwords: set<string>): (r: bool)
    ensures r ==> |token| >= 4 && token !in stopwords
    ensures r ==> !Contains(token, "covid") && !Contains(token, "corona")
    ensures r ==> !StartsWith(token, "//t.co") && !EndsWith(token, "...")
    ensures token == "https" ==> !r
  {
    |token| > 3 && token != "rt" && token != "http" && token != "https" &&
    !StartsWith(token, "//t.co") && !EndsWith(token, "...") &&
    !Contains(token, "corona") && !Contains(token, "covid") && token !in stopwords
  }

  /** The guards against `rt` and `http` never decide anything: the length guard already rejects them. */
  lemma ShortMarkersRejectedByLength(token: string, stopwords: set<string>)
    requires token == "rt" || token == "http"
    ensures !ValidToken(token, stopwords)
  {
  }

  /** A word `clean_tweet` can return: valid and already stripped. */
  predicate CleanWord(w: string, stopwords: set<string>) {
    ValidToken(w, stopwords) && Strip(w) == w
  }

  /** The filter of `clean_tweet` applied to the tokenizer's output: each token stripped, kept when the
      stripped token is valid, in the original order. */
  function CleanTokens(tokens: seq<string>, stopwords: set<string>): (r: seq<string>)
    ensures |r| <= |tokens|
  {
    if tokens == [] then [] else Kept(tokens[0], stopwords) + CleanTokens(tokens[1..], stopwords)
  }

  /** What one token contributes: itself stripped when that is valid, otherwise nothing. */
  function Kept(token: string, stopwords: set<string>): (r: seq<string>)
    ensures r == [] || (r == [Strip(token)] && CleanWord(Strip(token), stopwords))
    ensures r == [] <==> !ValidToken(Strip(token), stopwords)
  {
    var t := Strip(token);
    if ValidToken(t, stopwords) then
      assert CleanWord(t, stopwords) by { StripIdempotent(token); }
      [t]
    else []
  }

  /** Every word of the result is valid and stripped. */
  lemma {:induction false} CleanTokensAreClean(tokens: seq<string>, stopwords: set<string>)
    ensures forall w :: w in CleanTokens(tokens, stopwords) ==> CleanWord(w, stopwords)
  {
    if tokens != [] {
      CleanTokensAreClean(tokens[1..], stopwords);
      assert CleanTokens(tokens, stopwords) == Kept(tokens[0], stopwords) + CleanTokens(tokens[1..], stopwords);
    }
  }

  /** Filtering distributes over concatenation: the order of the surviving tokens is the input order. */
  lemma {:induction false} CleanTokensAppend(a: seq<string>, b: seq<string>, stopwords: set<string>)
    ensures CleanTokens(a + b, stopwords) == CleanTokens(a, stopwords) + CleanTokens(b, stopwords)
  {
    if a == [] {
      assert a + b == b;
    } else {
      assert (a + b)[0] == a[0];
      assert (a + b)[1..] == a[1..] + b;
      CleanTokensAppend(a[1..], b, stopwords);
    }
  }

  /** A word is in the result exactly when some token strips to it and it is valid. */
  lemma {:induction false} CleanTokensMembers(tokens: seq<string>, stopwords: set<string>, w: string)
    ensures w in CleanTokens(tokens, stopwords) <==>
            ValidToken(w, stopwords) && exists k :: 0 <= k < |tokens| && Strip(tokens[k]) == w
  {
    if tokens != [] {
      var rest := tokens[1..];
      CleanTokensMembers(rest, stopwords, w);
      assert w in CleanTokens(tokens, stopwords) <==>
             w in Kept(tokens[0], stopwords) || w in CleanTokens(rest, stopwords);
      assert w in Kept(tokens[0], stopwords) <==> ValidToken(w, stopwords) && Strip(tokens[0]) == w;
      StripsToSplit(tokens, w);
    }
  }

  /** Some token strips to `w` exactly when the first one does or one of the others does. */
  lemma StripsToSplit(tokens: seq<string>, w: string)
    requires tokens != []
    ensures (exists k :: 0 <= k < |tokens| && Strip(tokens[k]) == w) <==>
            Strip(tokens[0]) == w || exists k :: 0 <= k < |tokens[1..]| && Strip(tokens[1..][k]) == w
  {
    if exists k :: 0 <= k < |tokens| && Strip(tokens[k]) == w {
      var k :| 0 <= k < |tokens| && Strip(tokens[k]) == w;
      if k > 0 {
        assert Strip(tokens[1..][k - 1]) == w;
      }
    }
    if exists k :: 0 <= k < |tokens[1..]| && Strip(tokens[1..][k]) == w {
      var k :| 0 <= k < |tokens[1..]| && Strip(tokens[1..][k]) == w;
      assert Strip(tokens[k + 1]) == w;
    }
  }

  /** Tokens that are already stripped and valid all survive, unchanged. */
  lemma {:induction false} CleanTokensKeepsClean(tokens: seq<string>, stopwords: set<string>)
    requires forall w :: w in tokens ==> CleanWord(w, stopwords)
    ensures CleanTokens(tokens, stopwords) == tokens
  {
    if tokens != [] {
      assert tokens == [tokens[0]] + tokens[1..];
      assert CleanWord(tokens[0], stopwords);
      assert Kept(tokens[0], stopwords) == [tokens[0]];
      CleanTokensKeepsClean(tokens[1..], stopwords);
    }
  }

  /** Cleaning twice is cleaning once. */
  lemma CleanTokensIdempotent(tokens: seq<string>, stopwords: set<string>)
    ensures CleanTokens(CleanTokens(tokens, stopwords), stopwords) == CleanTokens(tokens, stopwords)
  {
    CleanTokensAreClean(tokens, stopwords);
    CleanTokensKeepsClean(CleanTokens(tokens, stopwords), stopwords);
  }

  /** `clean_tweets`: every tweet's token list cleaned, one list per tweet. */
  function CleanTweets(tweets: seq<seq<string>>, stopwords: set<string>): (r: seq<seq<string>>)
    ensures |r| == |tweets|
  {
    seq(|tweets|, i requires 0 <= i < |tweets| => CleanTokens(tweets[i], stopwords))
  }

  /** Total number of elements in a list of lists. */
  function TotalLength<T>(lists: seq<seq<T>>): nat {
    if lists == [] then 0 else |lists[0]| + TotalLength(lists[1..])
  }

  /** `flatten_list`: the inner lists concatenated in order. */
  function Flatten<T>(lists: seq<seq<T>>): (r: seq<T>)
    ensures |r| == TotalLength(lists)
  {
    if lists == [] then [] else lists[0] + Flatten(lists[1..])
  }

  /** Flattening a concatenation of list-of-lists concatenates the flattenings. */
  lemma {:induction false} FlattenAppend<T>(a: seq<seq<T>>, b: seq<seq<T>>)
    ensures Flatten(a + b) == Flatten(a) + Flatten(b)
  {
    if a == [] {
      assert a + b == b;
    } else {
      assert (a + b)[1..] == a[1..] + b;
      FlattenAppend(a[1..], b);
    }
  }

  /** Every element of an inner list appears in the flattening, at the position after all earlier lists. */
  lemma {:induction false} FlattenPosition<T>(lists: seq<seq<T>>, i: nat, j: nat)
    requires i < |lists| && j < |lists[i]|
    ensures TotalLength(lists[..i]) + j < |Flatten(lists)|
    ensures Flatten(lists)[TotalLength(lists[..i]) + j] == lists[i][j]
  {
    assert lists == lists[..i] + lists[i..];
    FlattenAppend(lists[..i], lists[i..]);
    assert Flatten(lists[i..]) == lists[i] + Flatten(lists[i + 1..]) by {
      assert lists[i..][1..] == lists[i + 1..];
    }
  }

  /** `get_cleaned_tweet_words` on tokenized tweets: cleaning tweet by tweet and then flattening is the
      same as cleaning the whole token stream at once. */
  lemma {:induction false} CleanedWordsAreCleanStream(tweets: seq<seq<string>>, stopwords: set<string>)
    ensures Flatten(CleanTweets(tweets, stopwords)) == CleanTokens(Flatten(tweets), stopwords)
  {
    if tweets != [] {
      CleanedWordsAreCleanStream(tweets[1..], stopwords);
      assert CleanTweets(tweets, stopwords)[1..] == CleanTweets(tweets[1..], stopwords);
      CleanTokensAppend(tweets[0], Flatten(tweets[1..]), stopwords);
    }
  }

  // ---------------------------------------------------------------------------------------------
  // State mask

  /** One pixel of a three-channel picture, as `np.array(img, dtype='int')` holds it. */
  datatype Rgb = Rgb(red: int, green: int, blue: int)

  const White: Rgb := Rgb(255, 255, 255)

  /** A picture as rows of pixels; `width` is kept separately so that a picture with no rows still has one. */
  datatype Mask = Mask(width: nat, rows: seq<seq<Rgb>>) {
    predicate Valid() {
      forall i :: 0 <= i < |rows| ==> |rows[i]| == width
    }
  }

  /** `append_white_row`: with `top` a white row after the last row, otherwise one before the first. */
  function AppendWhiteRow(m: Mask, top: bool): (r: Mask)
    requires m.Valid()
    ensures r.Valid() && r.width == m.width && |r.rows| == |m.rows| + 1
    ensures top ==> r.rows[..|m.rows|] == m.rows && r.rows[|m.rows|] == seq(m.width, _ => White)
    ensures !top ==> r.rows[0] == seq(m.width, _ => White) && r.rows[1..] == m.rows
  {
    var white := seq(m.width, _ => White);
    if top then Mask(m.width, m.rows + [white]) else Mask(m.width, [white] + m.rows)
  }

  /** `append_white_col`: with `left` a white column after the last column, otherwise one before the first. */
  function AppendWhiteCol(m: Mask, left: bool): (r: Mask)
    requires m.Valid()
    ensures r.Valid() && r.width == m.width + 1 && |r.rows| == |m.rows|
    ensures forall i :: 0 <= i < |m.rows| ==>
              if left then r.rows[i][..m.width] == m.rows[i] && r.rows[i][m.width] == White
              else r.rows[i][0] == White && r.rows[i][1..] == m.rows[i]
  {
    Mask(m.width + 1, seq(|m.rows|, i requires 0 <= i < |m.rows| =>
                             if left then m.rows[i] + [White] else [White] + m.rows[i]))
  }

  /** The picture surrounded by a white frame one pixel wide. */
  function Framed(m: Mask): Mask
    requires m.Valid()
  {
    Mask(m.width + 2, seq(|m.rows| + 2, i requires 0 <= i < |m.rows| + 2 =>
                           seq(m.width + 2, j requires 0 <= j < m.width + 2 =>
                                 if 1 <= i <= |m.rows| && 1 <= j <= m.width then m.rows[i - 1][j - 1] else White)))
  }

  /** One round of the padding loop: a white row at the bottom, one at the top, a white column on the
      right and one on the left make exactly a one-pixel frame. */
  lemma PaddingRoundFrames(m: Mask)
    requires m.Valid()
    ensures Framed(m).Valid()
    ensures AppendWhiteCol(AppendWhiteCol(AppendWhiteRow(AppendWhiteRow(m, true), false), true), false) == Framed(m)
  {
    var a := AppendWhiteRow(m, true);
    var b := AppendWhiteRow(a, false);
    var c := AppendWhiteCol(b, true);
    var d := AppendWhiteCol(c, false);
    var f := Framed(m);
    forall i | 0 <= i < |m.rows| + 2
      ensures d.rows[i] == f.rows[i]
    {
      forall j | 0 <= j < m.width + 2
        ensures d.rows[i][j] == f.rows[i][j]
      {
        if j > 0 {
          assert d.rows[i][j] == c.rows[i][j - 1];
          if j - 1 < m.width && 1 <= i <= |m.rows| {
            assert b.rows[i] == a.rows[i - 1];
            assert a.rows[i - 1] == m.rows[i - 1];
          }
        }
      }
    }
  }

  /** The picture after `k` rounds of padding. */
  function Padded(m: Mask, k: nat): (r: Mask)
    requires m.Valid()
    ensures r.Valid()
  {
    if k == 0 then m else PaddingRoundFrames(Padded(m, k - 1)); Framed(Padded(m, k - 1))
  }

  /** `p` is `m` inside a white frame `k` pixels wide: `k` more rows and columns on each side, white
      there, and `m` at offset (k, k). */
  predicate FramedBy(p: Mask, m: Mask, k: nat)
    requires m.Valid()
  {
    p.Valid() && p.width == m.width + 2 * k && |p.rows| == |m.rows| + 2 * k &&
    forall i, j :: 0 <= i < |m.rows| + 2 * k && 0 <= j < m.width + 2 * k ==>
      p.rows[i][j] == if k <= i < |m.rows| + k && k <= j < m.width + k then m.rows[i - k][j - k] else White
  }

  /** Closed form of `k` rounds of padding. */
  lemma {:induction false} PaddedShape(m: Mask, k: nat)
    requires m.Valid()
    ensures FramedBy(Padded(m, k), m, k)
  {
    if k > 0 {
      PaddedShape(m, k - 1);
      FramedByStep(Padded(m, k - 1), m, k);
    }
  }

  /** Framing a picture that has a frame `k - 1` wide gives a frame `k` wide. */
  lemma FramedByStep(q: Mask, m: Mask, k: nat)
    requires m.Valid() && k > 0
    requires FramedBy(q, m, k - 1)
    ensures FramedBy(Framed(q), m, k)
  {
    var p := Framed(q);
    forall i, j | 0 <= i < |m.rows| + 2 * k && 0 <= j < m.width + 2 * k
      ensures p.rows[i][j] == if k <= i < |m.rows| + k && k <= j < m.width + k then m.rows[i - k][j - k] else White
    {
      FramedCell(q, i, j);
    }
  }

  /** One pixel of the framed picture: the pixel diagonally above-left of it, or white on the frame. */
  lemma FramedCell(q: Mask, i: int, j: int)
    requires q.Valid() && 0 <= i < |q.rows| + 2 && 0 <= j < q.width + 2
    ensures Framed(q).rows[i][j] == if 1 <= i <= |q.rows| && 1 <= j <= q.width then q.rows[i - 1][j - 1] else White
  {
  }

  /** The first thresholding pass, `mask[mask > 10] = 255`, on one channel value. */
  function Raise(v: int): int {
    if v > 10 then 255 else v
  }

  /** The second thresholding pass, `mask[mask != 255] = 0`, on one channel value. */
  function Zero(v: int): int {
    if v != 255 then 0 else v
  }

  /** The two passes together send every channel to 255 when it exceeded 10 and to 0 otherwise. */
  function Binarize(v: int): (r: int)
    ensures r == Zero(Raise(v))
    ensures r == 0 || r == 255
  {
    if v > 10 then 255 else 0
  }

  function ApplyToChannels(p: Rgb, f: int -> int): Rgb {
    Rgb(f(p.red), f(p.green), f(p.blue))
  }

  /** An elementwise assignment on the pixel array: every channel of every pixel replaced by `f` of itself. */
  method MapChannels(mask: array2<Rgb>, f: int -> int)
    modifies mask
    ensures forall i, j :: 0 <= i < mask.Length0 && 0 <= j < mask.Length1 ==>
              mask[i, j] == ApplyToChannels(old(mask[i, j]), f)
  {
    for i := 0 to mask.Length0
      invariant forall r, c :: 0 <= r < i && 0 <= c < mask.Length1 ==>
                  mask[r, c] == ApplyToChannels(old(mask[r, c]), f)
      invariant forall r, c :: i <= r < mask.Length0 && 0 <= c < mask.Length1 ==> mask[r, c] == old(mask[r, c])
    {
      for j := 0 to mask.Length1
        invariant forall r, c :: 0 <= r < i && 0 <= c < mask.Length1 ==>
                    mask[r, c] == ApplyToChannels(old(mask[r, c]), f)
        invariant forall c :: 0 <= c < j ==> mask[i, c] == ApplyToChannels(old(mask[i, c]), f)
        invariant forall r, c :: i <= r < mask.Length0 && 0 <= c < mask.Length1 && (r > i || c >= j) ==>
                    mask[r, c] == old(mask[r, c])
      {
        mask[i, j] := ApplyToChannels(mask[i, j], f);
      }
    }
  }

  /** The picture with every channel binarized. */
  function Thresholded(m: Mask): (r: Mask)
    requires m.Valid()
    ensures r.Valid() && r.width == m.width && |r.rows| == |m.rows|
  {
    Mask(m.width, seq(|m.rows|, i requires 0 <= i < |m.rows| =>
                        seq(m.width, j requires 0 <= j < m.width => ApplyToChannels(m.rows[i][j], Binarize))))
  }

  /** The array holding a picture, as `np.array` builds it. */
  method ToArray(m: Mask) returns (a: array2<Rgb>)
    requires m.Valid()
    ensures fresh(a) && a.Length0 == |m.rows| && a.Length1 == m.width
    ensures forall i, j :: 0 <= i < a.Length0 && 0 <= j < a.Length1 ==> a[i, j] == m.rows[i][j]
  {
    a := new Rgb[|m.rows|, m.width]((i, j) requires 0 <= i < |m.rows| && 0 <= j < m.width => m.rows[i][j]);
  }

  /** The picture an array holds. */
  method FromArray(a: array2<Rgb>) returns (m: Mask)
    ensures m.Valid() && m.width == a.Length1 && |m.rows| == a.Length0
    ensures forall i, j :: 0 <= i < a.Length0 && 0 <= j < a.Length1 ==> m.rows[i][j] == a[i, j]
  {
    var rows: seq<seq<Rgb>> := [];
    for i := 0 to a.Length0
      invariant |rows| == i
      invariant forall r :: 0 <= r < i ==> |rows[r]| == a.Length1
      invariant forall r, c :: 0 <= r < i && 0 <= c < a.Length1 ==> rows[r][c] == a[r, c]
    {
      var row: seq<Rgb> := [];
      for j := 0 to a.Length1
        invariant |row| == j
        invariant forall c :: 0 <= c < j ==> row[c] == a[i, c]
      {
        row := row + [a[i, j]];
      }
      rows := rows + [row];
    }
    m := Mask(a.Length1, rows);
  }

  /**
   * `get_state_mask`. `picture` is the decoded picture of `state_pics/<state>.jpg`, or None when
   * that file does not exist. No state (None or empty) gives None before the file is looked at.
   * The picture is thresholded in place in two passes and then padded in five rounds.
   */
  method GetStateMask(state: Option<string>, picture: Option<Mask>) returns (r: Option<Mask>)
    requires picture.Some? ==> picture.value.Valid()
    ensures r.None? <==> state.None? || state.value == "" || picture.None?
    ensures r.Some? ==> picture.Some? && r.value == Padded(Thresholded(picture.value), 5)
  {
    if state.None? || state.value == "" {
      return None;
    }
    if picture.None? {
      return None;
    }
    var m := picture.value;
    var mask := ToArray(m);
    MapChannels(mask, Raise);
    MapChannels(mask, Zero);
    var thresholded := FromArray(mask);
    assert thresholded == Thresholded(m) by {
      forall i | 0 <= i < |m.rows|
        ensures thresholded.rows[i] == Thresholded(m).rows[i]
      {
        forall j | 0 <= j < m.width
          ensures thresholded.rows[i][j] == Thresholded(m).rows[i][j]
        {
          assert thresholded.rows[i][j] == mask[i, j];
        }
      }
    }
    var padded := thresholded;
    for k := 0 to 5
      invariant padded.Valid()
      invariant padded == Padded(thresholded, k)
    {
      PaddingRoundFrames(padded);
      padded := AppendWhiteRow(padded, true);
      padded := AppendWhiteRow(padded, false);
      padded := AppendWhiteCol(padded, true);
      padded := AppendWhiteCol(padded, false);
    }
    r := Some(padded);
  }

  /** What a state mask looks like: ten more rows and columns than the picture, a white frame five
      pixels wide, and inside it the picture with every channel 0 or 255 (255 exactly where it exceeded 10). */
  lemma StateMaskShape(m: Mask)
    requires m.Valid()
    ensures var p := Padded(Thresholded(m), 5);
            p.width == m.width + 10 && |p.rows| == |m.rows| + 10 &&
            (forall i, j :: (0 <= i < |m.rows| + 10 && 0 <= j < m.width + 10 &&
                             !(5 <= i < |m.rows| + 5 && 5 <= j < m.width + 5)) ==> p.rows[i][j] == White) &&
            (forall i, j :: 0 <= i < |m.rows| && 0 <= j < m.width ==>
                            p.rows[i + 5][j + 5] == ApplyToChannels(m.rows[i][j], Binarize))
  {
    var t := Thresholded(m);
    PaddedShape(t, 5);
    FramedByInterior(Padded(t, 5), t, 5);
    FramedByBorder(Padded(t, 5), t, 5);
  }

  /** Outside the original's place, a picture framed `k` wide is white. */
  lemma FramedByBorder(p: Mask, m: Mask, k: nat)
    requires m.Valid() && FramedBy(p, m, k)
    ensures forall i, j :: (0 <= i < |m.rows| + 2 * k && 0 <= j < m.width + 2 * k &&
                            !(k <= i < |m.rows| + k && k <= j < m.width + k)) ==> p.rows[i][j] == White
  {
  }

  /** Inside a frame `k` wide, pixel (i, j) of the framed picture is pixel (i - k, j - k) of the original. */
  lemma FramedByInterior(p: Mask, m: Mask, k: nat)
    requires m.Valid() && FramedBy(p, m, k)
    ensures forall i, j :: 0 <= i < |m.rows| && 0 <= j < m.width ==> p.rows[i + k][j + k] == m.rows[i][j]
  {
    forall i, j | 0 <= i < |m.rows| && 0 <= j < m.width
      ensures p.rows[i + k][j + k] == m.rows[i][j]
    {
      assert 0 <= i + k < |m.rows| + 2 * k && 0 <= j + k < m.width + 2 * k;
    }
  }
}
