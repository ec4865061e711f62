/**
 The per-event ingestion decision of tweet.py: `StreamFilter` holds the
 configuration, and `CustomStreamListener.on_data` checks the capacity of the
 collection, then hands an event with a `text` field either to
 `get_unique_tweets` (dedup mode, `geo_tweets` is None) or to
 `get_geo_tweets` (geo mode). The collection is a sequence of documents and
 `count()` is its length; the listener's seen keys (`key_list`), the error
 log, the coordinates file and the optional audit file are sequences that
 only ever grow. The clock read by `log_error` is the parameter `now`.
 */
module Listener {
  import opened Wrappers
  import opened Text
  import opened UrlPattern

  /** A `[lon, lat]` pair of a GeoJSON point. */
  datatype Position = Position(lon: real, lat: real)

  /** A present `coordinates` field: JSON null, or an object whose inner `coordinates` key may be missing. */
  datatype Coordinates = Null | GeoObject(coordinates: Option<Position>)

  /**
   A decoded event. `None` for `text` or `coordinates` means the key is absent;
   `retweetedStatus` records whether the key `retweeted_status` is present;
   `rest` holds every other field, carried along unchanged.
   */
  datatype Tweet = Tweet(
    text: Option<string>,
    retweetedStatus: bool,
    coordinates: Option<Coordinates>,
    rest: map<string, string>)

  /** `StreamFilter`: its accessors are the fields. The collection itself lives in `State`. */
  datatype StreamFilter = StreamFilter(stopWords: seq<string>, maxTweets: int, geoTweets: Option<seq<real>>)

  /** The listener's fixed configuration: its filter and the `wtf` audit flag. */
  datatype Config = Config(streamFilter: StreamFilter, wtf: bool)

  /** Everything an event can change. */
  datatype State = State(
    keyList: seq<string>,
    collection: seq<Tweet>,
    errorLog: seq<string>,
    coordinatesLog: seq<Position>,
    auditLog: seq<string>)

  /** `on_data` returns False to stop the stream; otherwise it returns None and the stream goes on. */
  datatype Signal = Stop | Continue

  /** What became of one event. */
  datatype Action =
    | Stopped                        // capacity reached, event not looked at
    | Ignored                        // no text, a retweet, or no coordinates in geo mode
    | StoredVerbatim                 // inserted as delivered
    | StoredRewritten(key: string)   // inserted with `text` replaced by its key
    | KeyRecorded(key: string)       // first key of the session: remembered, not inserted
    | Duplicate(key: string)         // key contained in an earlier key: dropped
    | ErrorLogged(message: string)   // KeyError caught and logged
  {
    predicate Inserts() {
      StoredVerbatim? || StoredRewritten?
    }
  }

  datatype Outcome = Outcome(state: State, action: Action)

  datatype Step = Step(signal: Signal, state: State, action: Action)

  /** True when the stored documents and the keys of `st` are prefixes of those of `st'`. */
  predicate Extends(st: State, st': State) {
    && st.keyList <= st'.keyList
    && st.collection <= st'.collection
    && st.errorLog <= st'.errorLog
    && st.coordinatesLog <= st'.coordinatesLog
    && st.auditLog <= st'.auditLog
  }

  /** `log_error`: one line, the message followed by the time. */
  function LogError(log: seq<string>, message: string, now: string): (r: seq<string>)
    ensures |r| == |log| + 1 && log <= r
    ensures r[|log|] == message + now
  {
    log + [message + now]
  }

  /** `str(KeyError('coordinates'))` in Python 2. */
  const MissingCoordinatesMessage: string := "'coordinates'"

  /** Any earlier key contains `key` (one direction only: `key in item`). */
  ghost predicate IsDuplicateKey(key: string, keyList: seq<string>) {
    exists i :: 0 <= i < |keyList| && IsSubstring(key, keyList[i])
  }

  /** `get_unique_tweets` on an event whose `text` is `text`. */
  function GetUniqueTweets(cfg: Config, st: State, tweet: Tweet, text: string): (r: Outcome)
    requires tweet.text == Some(text)
    ensures tweet.retweetedStatus ==> r == Outcome(st, Ignored)
    ensures !tweet.retweetedStatus && UrlMatch(Normalize(text)).None? ==>
      && r.action == StoredVerbatim
      && r.state == st.(collection := st.collection + [tweet])
    ensures !tweet.retweetedStatus && UrlMatch(Normalize(text)).Some? ==>
      var key := UrlMatch(Normalize(text)).value;
      && (st.keyList == [] ==> r == Outcome(st.(keyList := [key]), KeyRecorded(key)))
      && (st.keyList != [] && IsDuplicateKey(key, st.keyList) ==> r == Outcome(st, Duplicate(key)))
      && (st.keyList != [] && !IsDuplicateKey(key, st.keyList) ==>
            && r.action == StoredRewritten(key)
            && r.state.keyList == st.keyList + [key]
            && r.state.collection == st.collection + [tweet.(text := Some(key))]
            && r.state.auditLog == (if cfg.wtf then st.auditLog + [key] else st.auditLog)
            && r.state.errorLog == st.errorLog
            && r.state.coordinatesLog == st.coordinatesLog)
  {
    if tweet.retweetedStatus then Outcome(st, Ignored)
    else
      var dedupText := Normalize(text);
      match UrlMatch(dedupText)
      case None => Outcome(st.(collection := st.collection + [tweet]), StoredVerbatim)
      case Some(key) =>
        if |st.keyList| > 0 then
          if AnyContains(key, st.keyList) then Outcome(st, Duplicate(key))
          else
            var doc := tweet.(text := Some(key));
            var audit := if cfg.wtf then st.auditLog + [key] else st.auditLog;
            Outcome(st.(keyList := st.keyList + [key], collection := st.collection + [doc], auditLog := audit),
                    StoredRewritten(key))
        else Outcome(st.(keyList := st.keyList + [key]), KeyRecorded(key))
  }

  /** `get_geo_tweets`: store the event as delivered when it carries a non-null `coordinates`. */
  function GetGeoTweets(st: State, tweet: Tweet, now: string): (r: Outcome)
    ensures (tweet.coordinates.None? || tweet.coordinates == Some(Null)) ==> r == Outcome(st, Ignored)
    ensures tweet.coordinates.Some? && tweet.coordinates.value.GeoObject? ==>
      match tweet.coordinates.value.coordinates
      case Some(p) =>
        r == Outcome(st.(collection := st.collection + [tweet], coordinatesLog := st.coordinatesLog + [p]), StoredVerbatim)
      case None =>
        && r.action == ErrorLogged(MissingCoordinatesMessage)
        && r.state == st.(errorLog := st.errorLog + [MissingCoordinatesMessage + now])
  {
    match tweet.coordinates
    case None => Outcome(st, Ignored)
    case Some(Null) => Outcome(st, Ignored)
    case Some(GeoObject(None)) =>
      // the KeyError is raised before the insert and logged
      Outcome(st.(errorLog := LogError(st.errorLog, MissingCoordinatesMessage, now)), ErrorLogged(MissingCoordinatesMessage))
    case Some(GeoObject(Some(p))) =>
      Outcome(st.(collection := st.collection + [tweet], coordinatesLog := st.coordinatesLog + [p]), StoredVerbatim)
  }

  /** `on_data`: the capacity check, then routing by `text` and by mode. */
  function OnData(cfg: Config, st: State, tweet: Tweet, now: string): (r: Step)
    // the stop test is exact equality with the limit
    ensures r.signal == Stop <==> |st.collection| == cfg.streamFilter.maxTweets
    ensures r.signal == Stop ==> r.state == st && r.action == Stopped
    ensures r.signal == Continue ==> !r.action.Stopped?
    // nothing already recorded changes, and at most one document and one key are added
    ensures Extends(st, r.state)
    ensures |r.state.collection| <= |st.collection| + 1
    ensures |r.state.keyList| <= |st.keyList| + 1
    ensures r.action.Inserts() <==> |r.state.collection| == |st.collection| + 1
    ensures |st.collection| <= cfg.streamFilter.maxTweets ==> |r.state.collection| <= cfg.streamFilter.maxTweets
    // no text: nothing happens
    ensures tweet.text.None? ==> r.state == st
    // geo mode never touches the seen keys
    ensures cfg.streamFilter.geoTweets.Some? ==> r.state.keyList == st.keyList
  {
    if |st.collection| == cfg.streamFilter.maxTweets then Step(Stop, st, Stopped)
    else match tweet.text
      case None => Step(Continue, st, Ignored)
      case Some(text) =>
        var o := if cfg.streamFilter.geoTweets.None? then GetUniqueTweets(cfg, st, tweet, text)
                 else GetGeoTweets(st, tweet, now);
        Step(Continue, o.state, o.action)
  }
}
