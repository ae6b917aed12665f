/**
  The memo both tables keep in front of the timestamp formatter: a map from
  timestamp to formatted text that is filled on first use. The formatter
  (`new Date(t).toISOString()`) is a parameter, and so is the type `T` of
  timestamps (a JavaScript `number` in the component), since the cache only
  compares them for equality.
 */
module TimestampCache {
  /** The text returned by one lookup and the cache afterwards. */
  datatype Lookup<T> = Lookup(text: string, cache: map<T, string>)

  /** The texts returned by a run of lookups, one per lookup, and the cache afterwards. */
  datatype Lookups<T> = Lookups(texts: seq<string>, cache: map<T, string>)

  /** Every cached entry is what the formatter gives for its key. */
  ghost predicate Agrees<T>(cache: map<T, string>, format: T -> string)
  {
    forall t :: t in cache ==> cache[t] == format(t)
  }

  /** `getCachedTimestamp`: format on a miss and remember it, then answer from the cache. */
  function GetCached<T(==)>(cache: map<T, string>, timestamp: T, format: T -> string): (r: Lookup<T>)
    ensures r.cache.Keys == cache.Keys + {timestamp}
    ensures forall t :: t in cache ==> r.cache[t] == cache[t]
    ensures r.text == r.cache[timestamp]
    ensures timestamp in cache ==> r.text == cache[timestamp]
    ensures timestamp !in cache ==> r.text == format(timestamp)
  {
    var filled := if timestamp !in cache then cache[timestamp := format(timestamp)] else cache;
    Lookup(filled[timestamp], filled)
  }

  /** A cache that agrees with the formatter answers as the formatter does
      and still agrees afterwards. */
  lemma CachedEqualsFormatted<T>(cache: map<T, string>, timestamp: T, format: T -> string)
    requires Agrees(cache, format)
    ensures GetCached(cache, timestamp, format).text == format(timestamp)
    ensures Agrees(GetCached(cache, timestamp, format).cache, format)
  {
  }

  /** Looking up a sequence of timestamps in order, threading the cache. */
  function LookupAll<T(==)>(cache: map<T, string>, timestamps: seq<T>, format: T -> string): (r: Lookups<T>)
    ensures |r.texts| == |timestamps|
    ensures cache.Keys <= r.cache.Keys
    decreases |timestamps|
  {
    if |timestamps| == 0 then Lookups([], cache)
    else
      var first := GetCached(cache, timestamps[0], format);
      var rest := LookupAll(first.cache, timestamps[1..], format);
      Lookups([first.text] + rest.texts, rest.cache)
  }

  /** However often timestamps repeat, looking them up through a cache that
      starts agreeing (for instance empty) answers every lookup with the text
      the formatter gives for it, and the cache ends up holding exactly the
      timestamps seen. */
  lemma {:induction false} RepeatedLookupsMatchFormatter<T>(cache: map<T, string>, timestamps: seq<T>, format: T -> string)
    requires Agrees(cache, format)
    ensures var r := LookupAll(cache, timestamps, format);
            forall k :: 0 <= k < |timestamps| ==> r.texts[k] == format(timestamps[k])
    ensures Agrees(LookupAll(cache, timestamps, format).cache, format)
    ensures forall t :: t in LookupAll(cache, timestamps, format).cache <==> t in cache || t in timestamps
    decreases |timestamps|
  {
    if |timestamps| > 0 {
      var first := GetCached(cache, timestamps[0], format);
      CachedEqualsFormatted(cache, timestamps[0], format);
      RepeatedLookupsMatchFormatter(first.cache, timestamps[1..], format);
      var r := LookupAll(cache, timestamps, format);
      var rest := LookupAll(first.cache, timestamps[1..], format);
      assert r.texts == [first.text] + rest.texts;
      forall k | 0 <= k < |timestamps|
        ensures r.texts[k] == format(timestamps[k])
      {
        if k > 0 {
          assert r.texts[k] == rest.texts[k - 1];
          assert timestamps[k] == timestamps[1..][k - 1];
        }
      }
      assert timestamps == [timestamps[0]] + timestamps[1..];
    }
  }
}
