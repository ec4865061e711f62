/**
 Properties of a listener over many events. `Run` feeds deliveries to
 `on_data` one after another and ignores the stop signal: after a stop the
 stream is reopened and every later event meets the same capacity check, so
 this also covers the reconnect loop's view of the listener.
 */
module Session {
  import opened Wrappers
  import opened Text
  import opened UrlPattern
  import opened Listener

  /** One delivered event and the time `log_error` would read while handling it. */
  datatype Delivery = Delivery(tweet: Tweet, now: string)

  /** The state after `on_data` has handled every delivery of `ds` in order. */
  function Run(cfg: Config, st: State, ds: seq<Delivery>): State
    decreases |ds|
  {
    if ds == [] then st
    else Run(cfg, OnData(cfg, st, ds[0].tweet, ds[0].now).state, ds[1..])
  }

  /** Keys and documents are only ever appended, at most one document per event. */
  lemma {:induction false} RunExtends(cfg: Config, st: State, ds: seq<Delivery>)
    ensures Extends(st, Run(cfg, st, ds))
    ensures |Run(cfg, st, ds).collection| <= |st.collection| + |ds|
    ensures |Run(cfg, st, ds).keyList| <= |st.keyList| + |ds|
    decreases |ds|
  {
    if ds != [] {
      var st1 := OnData(cfg, st, ds[0].tweet, ds[0].now).state;
      RunExtends(cfg, st1, ds[1..]);
    }
  }

  /** How many deliveries of `ds` end in an insert. */
  function InsertCount(cfg: Config, st: State, ds: seq<Delivery>): nat
    decreases |ds|
  {
    if ds == [] then 0
    else
      var step := OnData(cfg, st, ds[0].tweet, ds[0].now);
      (if step.action.Inserts() then 1 else 0) + InsertCount(cfg, step.state, ds[1..])
  }

  /** The collection grows by exactly the number of insert decisions: no double counts, no lost writes. */
  lemma {:induction false} RunCountsInserts(cfg: Config, st: State, ds: seq<Delivery>)
    ensures |Run(cfg, st, ds).collection| == |st.collection| + InsertCount(cfg, st, ds)
    decreases |ds|
  {
    if ds != [] {
      var step := OnData(cfg, st, ds[0].tweet, ds[0].now);
      RunCountsInserts(cfg, step.state, ds[1..]);
    }
  }

  /** Starting at or below the limit, no sequence of events takes the count past it. */
  lemma {:induction false} RunRespectsLimit(cfg: Config, st: State, ds: seq<Delivery>)
    requires |st.collection| <= cfg.streamFilter.maxTweets
    ensures |Run(cfg, st, ds).collection| <= cfg.streamFilter.maxTweets
    decreases |ds|
  {
    if ds != [] {
      var st1 := OnData(cfg, st, ds[0].tweet, ds[0].now).state;
      RunRespectsLimit(cfg, st1, ds[1..]);
    }
  }

  /** Once the count equals the limit, no event changes anything. */
  lemma {:induction false} RunIdleAtLimit(cfg: Config, st: State, ds: seq<Delivery>)
    requires |st.collection| == cfg.streamFilter.maxTweets
    ensures Run(cfg, st, ds) == st
    decreases |ds|
  {
    if ds != [] {
      RunIdleAtLimit(cfg, st, ds[1..]);
    }
  }

  /** The limit test is exact: a count already above the limit never stops the listener. */
  lemma AboveLimitNeverStops(cfg: Config, st: State, tweet: Tweet, now: string)
    requires |st.collection| > cfg.streamFilter.maxTweets
    ensures OnData(cfg, st, tweet, now).signal == Continue
  {
  }

  /** Every key after the first is contained in no earlier key. */
  ghost predicate KeysIndependent(keys: seq<string>) {
    forall i, j :: 0 <= i < j < |keys| ==> !IsSubstring(keys[j], keys[i])
  }

  /** `on_data` keeps the seen keys independent. */
  lemma OnDataKeepsKeysIndependent(cfg: Config, st: State, tweet: Tweet, now: string)
    requires KeysIndependent(st.keyList)
    ensures KeysIndependent(OnData(cfg, st, tweet, now).state.keyList)
  {
    var r := OnData(cfg, st, tweet, now);
    if r.action.StoredRewritten? {
      var key := r.action.key;
      assert r.state.keyList == st.keyList + [key];
      assert !IsDuplicateKey(key, st.keyList);
    }
  }

  /** Independence of the seen keys holds over any run; in particular no key is stored twice. */
  lemma {:induction false} RunKeepsKeysIndependent(cfg: Config, st: State, ds: seq<Delivery>)
    requires KeysIndependent(st.keyList)
    ensures KeysIndependent(Run(cfg, st, ds).keyList)
    ensures forall i, j :: 0 <= i < j < |Run(cfg, st, ds).keyList| ==>
              Run(cfg, st, ds).keyList[i] != Run(cfg, st, ds).keyList[j]
    decreases |ds|
  {
    if ds != [] {
      var st1 := OnData(cfg, st, ds[0].tweet, ds[0].now).state;
      OnDataKeepsKeysIndependent(cfg, st, ds[0].tweet, ds[0].now);
      RunKeepsKeysIndependent(cfg, st1, ds[1..]);
    }
    var keys := Run(cfg, st, ds).keyList;
    forall i, j | 0 <= i < j < |keys|
      ensures keys[i] != keys[j]
    {
      SubstringReflexive(keys[j]);
    }
  }

  /** In dedup mode, a retweet or an event without text changes nothing. */
  lemma DedupIgnoresRetweets(cfg: Config, st: State, tweet: Tweet, now: string)
    requires cfg.streamFilter.geoTweets.None?
    requires tweet.retweetedStatus || tweet.text.None?
    ensures OnData(cfg, st, tweet, now).state == st
  {
  }

  /** Geo mode applies no retweet check: the flag does not change what happens. */
  lemma GeoIgnoresRetweetFlag(cfg: Config, st: State, tweet: Tweet, now: string)
    requires cfg.streamFilter.geoTweets.Some?
    ensures OnData(cfg, st, tweet, now).action == OnData(cfg, st, tweet.(retweetedStatus := true), now).action
    ensures |OnData(cfg, st, tweet, now).state.collection| ==
            |OnData(cfg, st, tweet.(retweetedStatus := true), now).state.collection|
  {
  }

  /** After a link-bearing event is handled, its key is contained in some seen key. */
  lemma KeyRememberedAfterDelivery(cfg: Config, st: State, tweet: Tweet, now: string)
    requires cfg.streamFilter.geoTweets.None?
    requires |st.collection| != cfg.streamFilter.maxTweets
    requires tweet.text.Some? && !tweet.retweetedStatus
    requires UrlMatch(Normalize(tweet.text.value)).Some?
    ensures IsDuplicateKey(UrlMatch(Normalize(tweet.text.value)).value, OnData(cfg, st, tweet, now).state.keyList)
  {
    var key := UrlMatch(Normalize(tweet.text.value)).value;
    var keys := OnData(cfg, st, tweet, now).state.keyList;
    SubstringReflexive(key);
    if st.keyList == [] || !IsDuplicateKey(key, st.keyList) {
      assert keys[|keys| - 1] == key;
    } else {
      var i :| 0 <= i < |st.keyList| && IsSubstring(key, st.keyList[i]);
      assert keys[i] == st.keyList[i];
    }
  }

  /**
   The same link-bearing text delivered twice in a row in dedup mode: the second
   delivery changes nothing (it is a duplicate of itself, or the limit was hit).
   */
  lemma SameTweetTwiceSecondDropped(cfg: Config, st: State, tweet: Tweet, now1: string, now2: string)
    requires cfg.streamFilter.geoTweets.None?
    requires tweet.text.Some? && UrlMatch(Normalize(tweet.text.value)).Some?
    ensures var st1 := OnData(cfg, st, tweet, now1).state;
            OnData(cfg, st1, tweet, now2).state == st1
  {
    var st1 := OnData(cfg, st, tweet, now1).state;
    if |st.collection| != cfg.streamFilter.maxTweets && !tweet.retweetedStatus {
      KeyRememberedAfterDelivery(cfg, st, tweet, now1);
    }
  }

  /** Delivering a link-bearing event into an empty session records its key and stores nothing. */
  lemma FirstKeyOnlyRecorded(cfg: Config, st: State, tweet: Tweet, now: string)
    requires cfg.streamFilter.geoTweets.None? && st.keyList == []
    requires |st.collection| != cfg.streamFilter.maxTweets
    requires tweet.text.Some? && !tweet.retweetedStatus
    requires UrlMatch(Normalize(tweet.text.value)).Some?
    ensures OnData(cfg, st, tweet, now).state.collection == st.collection
    ensures OnData(cfg, st, tweet, now).state.keyList == [UrlMatch(Normalize(tweet.text.value)).value]
  {
  }

  const LongText := "breaking news today http://t.co/a"
  const ShortText := "breaking news http://t.co/b"

  /**
   Both example texts are already ASCII and lower-case. The text is a
   parameter rather than the constant itself: with the literal in scope the
   solver unfolds `Normalize` character by character and runs out of resource.
   */
  lemma ExampleTextsNormalized(t: string)
    requires t == LongText || t == ShortText
    ensures Normalize(t) == t
  {
    NormalizeFixesNormalized(t);
  }

  /** The key of `LongText`: everything before the link. */
  lemma LongTextMatch()
    ensures UrlMatch(LongText) == Some("breaking news today ")
  {
    var t := LongText;
    assert t[20..27] == "http://";
    assert KeyEndsAt(t, 20);
    UrlMatchIsLongestKey(t, 20);
    assert t[..20] == "breaking news today ";
  }

  /** The key of `ShortText`: everything before the link. */
  lemma ShortTextMatch()
    ensures UrlMatch(ShortText) == Some("breaking news ")
  {
    var t := ShortText;
    assert t[14..21] == "http://";
    assert KeyEndsAt(t, 14);
    UrlMatchIsLongestKey(t, 14);
    assert t[..14] == "breaking news ";
  }

  /** The dedup keys of the two example texts. */
  lemma ExampleKeys()
    ensures UrlMatch(Normalize(LongText)) == Some("breaking news today ")
    ensures UrlMatch(Normalize(ShortText)) == Some("breaking news ")
  {
    ExampleTextsNormalized(LongText);
    ExampleTextsNormalized(ShortText);
    LongTextMatch();
    ShortTextMatch();
  }

  /** With seen keys, a link-bearing event is dropped exactly when an earlier key contains its key. */
  lemma KeyDecidesDedup(cfg: Config, st: State, tweet: Tweet, now: string, key: string)
    requires cfg.streamFilter.geoTweets.None?
    requires |st.collection| != cfg.streamFilter.maxTweets && st.keyList != []
    requires tweet.text.Some? && !tweet.retweetedStatus
    requires UrlMatch(Normalize(tweet.text.value)) == Some(key)
    ensures IsDuplicateKey(key, st.keyList) ==> OnData(cfg, st, tweet, now).state == st
    ensures !IsDuplicateKey(key, st.keyList) ==>
              && OnData(cfg, st, tweet, now).action == StoredRewritten(key)
              && OnData(cfg, st, tweet, now).state.collection == st.collection + [tweet.(text := Some(key))]
  {
  }

  /** "breaking news " occurs at the start of "breaking news today ". */
  lemma ShortKeyInLongKey()
    ensures IsSubstring("breaking news ", "breaking news today ")
  {
    assert OccursAt("breaking news ", "breaking news today ", 0);
  }

  /**
   The duplicate test is one-directional: when an earlier key `o` is strictly
   contained in a new key `n`, `n` is not a duplicate of `o`, while `o` coming
   after `n` would be a duplicate of `n`.
   */
  lemma DuplicateIsOneDirectional(o: string, n: string)
    requires IsSubstring(o, n) && |n| > |o|
    ensures !IsDuplicateKey(n, [o])
    ensures IsDuplicateKey(o, [n])
  {
    LongerNotSubstring(n, o);
    assert [n][0] == n;
  }

  /**
   The example keys: after "breaking news ", the key "breaking news today "
   (which contains it) is new; after "breaking news today ", the key
   "breaking news " (contained in it) is a duplicate. With `ExampleKeys` and
   `KeyDecidesDedup`, the text "breaking news today http://t.co/a" is stored
   in the first situation and "breaking news http://t.co/b" is dropped in the
   second.
   */
  lemma ExampleDuplicates()
    ensures !IsDuplicateKey("breaking news today ", ["breaking news "])
    ensures IsDuplicateKey("breaking news ", ["breaking news today "])
  {
    ShortKeyInLongKey();
    DuplicateIsOneDirectional("breaking news ", "breaking news today ");
  }

  /** Text without a link is stored as delivered, original case and all, whatever keys were seen. */
  lemma PlainTextStoredVerbatim(cfg: Config, st: State, tweet: Tweet, now: string)
    requires cfg.streamFilter.geoTweets.None?
    requires |st.collection| != cfg.streamFilter.maxTweets
    requires tweet.text.Some? && !tweet.retweetedStatus
    requires forall i :: 0 <= i < |tweet.text.value| ==> tweet.text.value[i] != ' '
    ensures OnData(cfg, st, tweet, now).state == st.(collection := st.collection + [tweet])
  {
    NoSpaceNormalized(tweet.text.value);
    NoSpaceNoMatch(Normalize(tweet.text.value));
  }

  /** Normalisation creates no space that the input did not have. */
  lemma {:induction false} NoSpaceNormalized(s: string)
    requires forall i :: 0 <= i < |s| ==> s[i] != ' '
    ensures forall i :: 0 <= i < |Normalize(s)| ==> Normalize(s)[i] != ' '
  {
    if s != [] {
      NoSpaceNormalized(s[1..]);
    }
  }
}
