# TweetMinr stream listener — a Dafny model

This project models the per-event ingestion decision of the TweetMinr stream
listener (`CustomStreamListener` in tweet.py) and the dedup-key pattern of
settings.py. The model is a pure step function over a state: the listener's
seen keys (`key_list`) and the stored documents, plus append-only logs.

Each delivered event ends in one of these outcomes:

- stopped, because the collection count equals `max_tweets`;
- ignored: it has no `text`, it is a retweet in dedup mode, or it has no coordinates in geo mode;
- stored verbatim;
- stored with its `text` rewritten to its dedup key;
- only recorded as a key (the first key of a session);
- dropped as a duplicate;
- logged as a caught `KeyError` (geo mode, missing inner `coordinates`).

Modules, one per concern:

- `Wrappers`: `Option` and `Result`.
- `Text`: the ASCII filter and lower-casing of `text.encode('ascii', 'ignore').lower()`, and Python's
  substring test `a in b`.
- `UrlPattern`: `URL_REGEX` as an explicit string function. `re.match` anchors the match at index 0.
  The greedy `.*` under DOTALL makes the key the LONGEST prefix that ends in a space immediately
  followed by `http://` or `https://` (case-insensitive) and one allowed character. The character
  group is written out alternative by alternative, and a lemma shows it equals "ASCII letters, `!`,
  and `$`..`_`".
- `Listener`: `StreamFilter`, `on_data`, `get_unique_tweets`, `get_geo_tweets`, `log_error`.
- `Session`: runs over many events, plus the properties that relate several calls.
- `Callbacks`: `on_error` and `on_timeout`.

The collection is a sequence of documents, and `count()` is its length. The clock that `log_error`
reads is a parameter `now`. The coordinates file and the `wtf` audit file are append-only sequences.

In three places the code behaves differently from what a reader might expect; the model follows the code:

- The duplicate test is one-directional. A new key is a duplicate only when it is a substring of
  an earlier key. An earlier key contained in the new key does not make it a duplicate.
  `Session.DuplicateIsOneDirectional` shows both directions.
- The capacity test is exact equality. A count already above the limit never stops the listener,
  and a negative limit never stops it either (`Session.AboveLimitNeverStops`).
- The retweet check is made only on the dedup path. In geo mode a retweet with coordinates is stored
  (`Session.GeoIgnoresRetweetFlag`).

## Model

| member | source | states |
|---|---|---|
| `Text.Normalize` | tweet.py:104 | the dedup text is never longer than the input, and all-ASCII input keeps its length |
| `Text.NormalizeIsNormalized` | tweet.py:104 | the dedup text has no non-ASCII and no upper-case character |
| `Text.NormalizeAppend` | tweet.py:104 | normalisation works character by character, so it distributes over concatenation |
| `Text.NormalizeFixesNormalized` | tweet.py:104 | text that is already ASCII and lower-case is unchanged |
| `Text.NormalizeIdempotent` | tweet.py:104 | normalising twice gives the same text as normalising once |
| `Text.NormalizeExtend` | tweet.py:104 | one more input character adds that character lower-cased when it is ASCII and nothing otherwise, so the ASCII characters are kept in order |
| `Text.NormalizeKeepsAscii` | tweet.py:104 | every ASCII character of the input appears, lower-cased, in the result |
| `Text.Occurs` | tweet.py:115 | the left-to-right search answers true exactly when `a` occurs as a contiguous block of `b` |
| `Text.AnyContains` | tweet.py:115 | the duplicate scan over `key_list` is true exactly when some listed key contains the new key |
| `Text.SubstringReflexive` | tweet.py:115 | every key contains itself, so a repeated key is always a duplicate |
| `Text.LongerNotSubstring` | tweet.py:115 | a longer key is never contained in a shorter one |
| `UrlPattern.MatchUpTo` | settings.py:18-19 | backtracking the greedy `.*` from length `n` down finds the longest qualifying prefix of length at most `n`, or none when no such prefix exists |
| `UrlPattern.UrlMatch` | settings.py:18-19 | a match is a proper prefix of the text, ends in a space, and is followed by a link; no longer prefix qualifies; there is no match exactly when no prefix qualifies |
| `UrlPattern.UrlMatchIsLongestKey` | settings.py:18 | the longest qualifying prefix is the match, so the key ends at the last qualifying link |
| `UrlPattern.LinkCharCharacterization` | settings.py:18-19 | the allowed first link characters, ignoring case, are ASCII letters, `!`, and `$` through `_` |
| `UrlPattern.PercentEscapeAddsNothing` | settings.py:18 | the `%hh` alternative admits nothing beyond the single-character group |
| `UrlPattern.NoSpaceNoMatch` | settings.py:18 | text without a space never matches |
| `UrlPattern.EmptyLeadingPart` | settings.py:18 | the leading part may be empty: `" http://x"` gives the key `" "` |
| `UrlPattern.LeadingLinkNoMatch` | settings.py:18 | a text with no link after index 0 has no match, because a link at index 0 has no space before it |
| `UrlPattern.LeadingLinkExample` | settings.py:18 | `http://t.co/x` has no match |
| `UrlPattern.DisallowedLinkCharEndsNoKey` | settings.py:18 | a space followed by `http://` and a character outside the group (not the `%` of an escape) ends no key |
| `UrlPattern.DisallowedLinkCharNoMatch` | settings.py:18 | the text `a http://` followed by a space, `"`, `#` or `~` has no match |
| `UrlPattern.SchemeIgnoresCase` | settings.py:18-19 | two texts equal once lower-cased have the same key ends, so both match or neither does, with keys of equal length |
| `UrlPattern.UpperCaseSchemeExample` | settings.py:18-19 | the key of `News HTTPS://t.co` is `News ` |
| `UrlPattern.LaterLinkExtendsKey` | settings.py:18-19 | of two qualifying links, the key reaches at least the later one and has the earlier candidate key as a prefix |
| `UrlPattern.GreedyTakesLastLink` | settings.py:18-19 | the key of `a http://x b https://y` is `a http://x b `, running up to the second link |
| `UrlPattern.KeyMaySpanLines` | settings.py:18-19 | with DOTALL the key may contain newlines |
| `Listener.LogError` | tweet.py:164-170 | logging appends exactly one line, the message followed by the time, and keeps earlier lines |
| `Listener.GetUniqueTweets` | tweet.py:96-139 | a retweet changes nothing; without a key the original, un-normalised event is stored and the keys stay; the first key is only recorded; a key contained in an earlier key is dropped; any other key replaces `text`, is appended, and exactly that document is stored (and audited under `wtf`) |
| `Listener.GetGeoTweets` | tweet.py:141-162 | absent or null coordinates change nothing; an inner pair stores the event verbatim and logs one position; a missing inner key logs the KeyError and stores nothing |
| `Listener.OnData` | tweet.py:63-79 | the listener stops exactly when the count equals the limit, and then changes nothing; otherwise it never stops; at most one document and one key are added; earlier entries never change; a count at or below the limit stays there; no `text` means no change; geo mode never touches the keys |
| `Session.RunExtends` | tweet.py:114-135 | over any run, keys and documents are only appended, at most one of each per event |
| `Session.RunCountsInserts` | tweet.py:121-154 | the collection grows by exactly the number of insert decisions |
| `Session.RunRespectsLimit` | tweet.py:64-67 | starting at or below the limit, no sequence of events passes it |
| `Session.RunIdleAtLimit` | tweet.py:64-67 | once the count equals the limit, no further event changes anything |
| `Session.AboveLimitNeverStops` | tweet.py:66 | the test is exact equality, so a count above the limit never stops |
| `Session.OnDataKeepsKeysIndependent` | tweet.py:114-121 | no key after the first is contained in an earlier key, and every event keeps it so |
| `Session.RunKeepsKeysIndependent` | tweet.py:114-121 | independence of the keys holds over any run, so no key is recorded twice |
| `Session.DedupIgnoresRetweets` | tweet.py:71-107 | in dedup mode, a retweet or an event without `text` changes nothing |
| `Session.GeoIgnoresRetweetFlag` | tweet.py:141-162 | geo mode makes no retweet check: the flag changes neither the outcome nor the count |
| `Session.KeyRememberedAfterDelivery` | tweet.py:114-132 | after a link-bearing event is handled in dedup mode, its key is contained in some seen key |
| `Session.SameTweetTwiceSecondDropped` | tweet.py:114-132 | the same link-bearing event delivered twice in a row: the second delivery changes nothing |
| `Session.FirstKeyOnlyRecorded` | tweet.py:131-132 | with no seen keys, a link-bearing event records its key and stores nothing |
| `Session.ExampleKeys` | settings.py:18-19 | the keys of "breaking news today http://t.co/a" and "breaking news http://t.co/b" are the texts before their links |
| `Session.KeyDecidesDedup` | tweet.py:114-121 | with seen keys, a link-bearing event is dropped when some earlier key contains its key, and otherwise stored with `text` replaced by the key |
| `Session.DuplicateIsOneDirectional` | tweet.py:115 | when a key `o` is strictly contained in a key `n`, `n` after `o` is not a duplicate, while `o` after `n` is |
| `Session.ExampleDuplicates` | tweet.py:115 | `breaking news today ` after `breaking news ` is new; `breaking news ` after `breaking news today ` is a duplicate |
| `Session.PlainTextStoredVerbatim` | tweet.py:133-135 | text with no space, and so no link key, is stored exactly as delivered, whatever keys were seen |
| `Callbacks.LogErrorValue` | tweet.py:164-170 | `log_error` succeeds exactly when it is given a string, and then appends that line |
| `Callbacks.OnErrorAsWritten` | tweet.py:81-88 | as written, `on_error` raises TypeError for every status and leaves the log unchanged |
| `Callbacks.RateLimitNeverSleepsAsWritten` | tweet.py:82-87 | as written, status 420 never reaches the 900-second sleep |
| `Callbacks.OnError` | tweet.py:81-88 | as intended: keep the stream, sleep exactly when the status is 420 and then 15 minutes, and log one line naming the status |
| `Callbacks.DecimalRoundTrip` | tweet.py:82 | the status printed in the log message reads back as the status |
| `Callbacks.OnTimeout` | tweet.py:90-94 | a timeout logs one line and keeps the stream without sleeping |

## Left out

- JSON decoding of the payload (tweet.py:69): events arrive already decoded as `Listener.Tweet`.
- The tweepy stream plumbing, the `main()` reconnect loop, `KeyboardInterrupt` handling and
  command-line parsing (tweet.py:173-216). These are transport and process concerns.
  `Session.Run` re-applies the capacity check to every later event, which is what reopening the
  stream amounts to.
- `max_tweets` arrives as a string from the command line (tweet.py:188). The model takes it as an
  integer and does not model the string-to-integer comparison.
- The pymongo collection beyond `count()` and `insert()`, including the `_id` field that insert
  adds to the document.
- Console output (`print`) and the formatting of coordinates as text. The coordinates file is a
  sequence of positions, and the audit file is a sequence of key strings without their JSON quoting.
- Credentials and client construction (settings.py:5-16), the unused `STOP` list (settings.py:20),
  and `CONTINENTAL_AMERICA`. The `coordinates` module is not part of this model. Stop words are
  carried in `StreamFilter` and consulted nowhere, as in the code.
- Crash paths that are neither the caught KeyError nor the caught TypeError:
  - `text` present but null or not a string. On the dedup path this is an AttributeError at
    tweet.py:104. In geo mode the event goes to `get_geo_tweets`, which never reads `text`, and is
    handled like any other. `Listener.Tweet` carries `text` only as absent or a string, so neither
    case is represented.
  - An inner `coordinates` that is null: the insert at tweet.py:154 happens, then an uncaught
    TypeError at tweet.py:157. `Listener.GeoObject` has no null inner value.
  - An inner `coordinates` that is an object: the insert happens, then `coordinates[0]` raises
    `KeyError(0)` at tweet.py:157, caught at tweet.py:159, so the document is stored AND the line
    `0` is logged. `Listener.GeoObject` has no object inner value.
  - A coordinate list shorter than two: an IndexError at tweet.py:157, after the insert.
  - A non-object `coordinates` value: an uncaught TypeError at tweet.py:153.
  - `wtf` set with no file name (tweet.py:60-61, 123).
- The `except TypeError` of `get_unique_tweets` (tweet.py:136-138). With `text` a string, nothing
  on that path raises TypeError, so the model has no such outcome.
- The `except KeyError` of `on_data` (tweet.py:76-79). No KeyError escapes the two routing
  functions in the model.

## Findings

| source | as written | input that shows it | evidently intended | confidence | as-written member | corrected member |
|---|---|---|---|---|---|---|
| tweet.py:82-84 | `error_message` is built with a comma, so it is a tuple; `log_error` then evaluates `tuple + str`, which raises TypeError before the 420 sleep and before `return True` | `on_error(420)` | log a message naming the status, sleep 900 seconds on 420, return True to keep the stream | high (not executed) | `Callbacks.OnErrorAsWritten`, `Callbacks.RateLimitNeverSleepsAsWritten` | `Callbacks.OnError` |
