/** The key range of a watcher (src/watch/mod.rs). */
module WatchRanges {
  import opened ByteStrings

  datatype WatchRange = WatchRange(key: Bytes, rangeEnd: Bytes) {
    /** An empty end means this key alone, a single zero byte means every key from `key` on. */
    predicate Contains(k: Bytes) {
      if Less(k, key) then false
      else if rangeEnd == [] then k == key
      else if rangeEnd == [0] then true
      else Less(k, rangeEnd)
    }
  }
}
