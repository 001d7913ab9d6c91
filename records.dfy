/** The values the cache holds and hands out (latinize.cpp `latin_record`,
    latinize.h `cache_entry`). */
module Records {
  import opened Bytes

  /** `metadb_index_hash`: an unsigned 64-bit key. */
  type Key = k: int | 0 <= k < 0x1_0000_0000_0000_0000

  /** `latin_record`: the latinised title and album of one track. */
  datatype LatinRecord = LatinRecord(title: Bytes, album: Bytes)

  /** `cache_entry`: one row of a snapshot or one external edit. For an album
      entry the title is unused and stays empty. */
  datatype CacheEntry = CacheEntry(isTrack: bool, key: Key, title: Bytes, album: Bytes)
}
