/**
 * `DatabaseService`: the preferences database with its three tables (cover preferences,
 * the metadata cache with expiry, and the one-row download counter), each a map keyed by
 * its primary key. Times are integer seconds passed in as `now`; cached data is kept as
 * its JSON text.
 */
module MetadataDb {
  import opened Wrappers

  datatype CoverPreference = CoverPreference(coverUrl: string, title: string, author: string, selectedAt: int)

  datatype CacheEntry = CacheEntry(source: string, data: string, cachedAt: int, expiresAt: int)

  const SecondsPerHour: int := 3600
  /** The window of `get_cover_preferences_stats`'s recent count: 30 days. */
  const RecentWindow: int := 30 * 86400

  /** `get_cached_book_metadata`'s query: the entry for the key, if from that source and not yet expired. */
  function CachedData(cache: map<string, CacheEntry>, bookKey: string, source: string, now: int): (r: Option<string>)
    ensures r.Some? <==> bookKey in cache && cache[bookKey].source == source && now < cache[bookKey].expiresAt
    ensures r.Some? ==> r.value == cache[bookKey].data
  {
    if bookKey in cache && cache[bookKey].source == source && cache[bookKey].expiresAt > now then
      Some(cache[bookKey].data)
    else None
  }

  /** The preferences selected within the last 30 days. */
  function RecentKeys(prefs: map<string, CoverPreference>, now: int): set<string> {
    set k | k in prefs && prefs[k].selectedAt >= now - RecentWindow
  }

  lemma {:induction false} SubsetCard<T>(a: set<T>, b: set<T>)
    requires a <= b
    ensures |a| <= |b|
    decreases |b|
  {
    if a != {} {
      var x :| x in a;
      SubsetCard(a - {x}, b - {x});
    }
  }

  class DatabaseService {
    var coverPreferences: map<string, CoverPreference>
    var metadataCache: map<string, CacheEntry>
    /** The count in the counter row `id = 1`, None while that row does not exist. */
    var counter: Option<int>

    /**
     * `__init__` on a database file holding the given tables: creating the tables leaves
     * existing rows alone, and the counter row is inserted with 0 only when missing.
     */
    constructor (prefs: map<string, CoverPreference>, cache: map<string, CacheEntry>, count: Option<int>)
      ensures coverPreferences == prefs && metadataCache == cache
      ensures counter == Some(count.GetOr(0))
      ensures count.Some? ==> counter == count
    {
      coverPreferences := prefs;
      metadataCache := cache;
      counter := Some(count.GetOr(0));
    }

    /** `save_cover_preference`: INSERT OR REPLACE keyed by `book_key`. */
    method SaveCoverPreference(bookKey: string, coverUrl: string, title: string, author: string, now: int)
      modifies this`coverPreferences
      ensures coverPreferences == old(coverPreferences)[bookKey := CoverPreference(coverUrl, title, author, now)]
    {
      coverPreferences := coverPreferences[bookKey := CoverPreference(coverUrl, title, author, now)];
    }

    /** `get_cover_preference`: the latest saved URL for the key, or None. */
    method GetCoverPreference(bookKey: string) returns (url: Option<string>)
      ensures url.Some? <==> bookKey in coverPreferences
      ensures url.Some? ==> url.value == coverPreferences[bookKey].coverUrl
    {
      if bookKey !in coverPreferences {
        return None;
      }
      url := Some(coverPreferences[bookKey].coverUrl);
    }

    /**
     * `cache_book_metadata`: INSERT OR REPLACE keyed by `book_key` alone, expiring
     * `cache_hours` after now. A lookup with the same source before then returns the data;
     * the key's entry for any other source is gone.
     */
    method CacheBookMetadata(bookKey: string, source: string, data: string, cacheHours: int, now: int)
      modifies this`metadataCache
      ensures metadataCache == old(metadataCache)[bookKey := CacheEntry(source, data, now, now + cacheHours * SecondsPerHour)]
      ensures forall t :: t < now + cacheHours * SecondsPerHour ==> CachedData(metadataCache, bookKey, source, t) == Some(data)
      ensures forall t :: t >= now + cacheHours * SecondsPerHour ==> CachedData(metadataCache, bookKey, source, t).None?
      ensures forall s, t :: s != source ==> CachedData(metadataCache, bookKey, s, t).None?
      ensures forall k, s, t :: k != bookKey ==> CachedData(metadataCache, k, s, t) == CachedData(old(metadataCache), k, s, t)
    {
      metadataCache := metadataCache[bookKey := CacheEntry(source, data, now, now + cacheHours * SecondsPerHour)];
    }

    /** `get_cached_book_metadata`: the data only while `expires_at > now` (strictly). */
    method GetCachedBookMetadata(bookKey: string, source: string, now: int) returns (data: Option<string>)
      ensures data == CachedData(metadataCache, bookKey, source, now)
      ensures data.Some? ==> now < metadataCache[bookKey].expiresAt
    {
      data := None;
      if bookKey in metadataCache {
        var e := metadataCache[bookKey];
        if e.source == source && e.expiresAt > now {
          data := Some(e.data);
        }
      }
    }

    /** `cleanup_expired_cache`: deletes exactly the entries with `expires_at <= now`. */
    method CleanupExpiredCache(now: int)
      modifies this`metadataCache
      ensures forall k :: k in metadataCache <==> k in old(metadataCache) && old(metadataCache)[k].expiresAt > now
      ensures forall k :: k in metadataCache ==> metadataCache[k] == old(metadataCache)[k]
      ensures forall k, s :: CachedData(metadataCache, k, s, now) == CachedData(old(metadataCache), k, s, now)
    {
      metadataCache := map k | k in metadataCache && metadataCache[k].expiresAt > now :: metadataCache[k];
    }

    /** `get_cover_preferences_stats`: all preferences, and those selected in the last 30 days. */
    method GetCoverPreferencesStats(now: int) returns (total: nat, recent: nat)
      ensures total == |coverPreferences.Keys|
      ensures recent == |RecentKeys(coverPreferences, now)|
      ensures recent <= total
    {
      total := |coverPreferences.Keys|;
      recent := |RecentKeys(coverPreferences, now)|;
      SubsetCard(RecentKeys(coverPreferences, now), coverPreferences.Keys);
    }

    /** `get_download_count`: the counter row's count, or 0 without one. */
    method GetDownloadCount() returns (n: int)
      ensures n == counter.GetOr(0)
      ensures counter.None? ==> n == 0
    {
      n := counter.GetOr(0);
    }

    /** `increment_download_count`: raises the count by exactly one and returns the new count. */
    method IncrementDownloadCount() returns (n: int)
      modifies this`counter
      ensures old(counter).Some? ==> counter == Some(old(counter).value + 1) && n == old(counter).value + 1
      ensures old(counter).None? ==> counter.None? && n == 0
    {
      if counter.Some? {
        counter := Some(counter.value + 1);
      }
      n := counter.GetOr(0);
    }
  }
}
