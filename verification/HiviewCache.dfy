/** The Hiview circular cache: a byte queue of bounded size, kept in a buffer with a write cursor and a
    count of used bytes. The read cursor is derived from the two. The lengths and cursors are 16-bit
    numbers, so every assignment to one carries the proof that nothing is cut off. */
module HiviewCaches {
  import opened Wire

  type uint16 = x: int | 0 <= x < 0x1_0000

  // ---------------------------------------------------------------- the ring

  /** The place in a buffer of `size` bytes that is `k` bytes after `r`. */
  function Place(size: nat, r: nat, k: nat): nat {
    if r + k < size then r + k else r + k - size
  }

  /** What GetReadCursor computes from the write cursor and the used size. */
  function ReadCursor(size: nat, w: nat, used: nat): nat
    requires w <= size && used <= size
  {
    if w >= used then w - used else size - (used - w)
  }

  /** The bytes in the cache, oldest first. */
  function Ring(buffer: seq<byte>, size: nat, w: nat, used: nat): (r: seq<byte>)
    requires w <= size && used <= size <= |buffer|
    ensures |r| == used
  {
    seq(used, k requires 0 <= k < used => buffer[Place(size, ReadCursor(size, w, used), k)])
  }

  /** Where the write cursor stands after `n` more bytes. It may come to rest at the end of the buffer. */
  function Advanced(size: nat, w: nat, n: nat): nat
    requires w <= size && n <= size
  {
    if w + n > size then n - (size - w) else w + n
  }

  /** How far place `i` lies behind the write cursor, going round at the end. */
  function Distance(size: nat, w: nat, i: nat): nat
    requires w <= size
  {
    if i >= w then i - w else i + size - w
  }

  /** `after` is `before` with the bytes of `data` put in at the write cursor, going round at the end. */
  ghost predicate PutAt(before: seq<byte>, after: seq<byte>, size: nat, w: nat, data: seq<byte>)
    requires w <= size <= |before| && |data| <= size
  {
    && |after| == |before| && after[size..] == before[size..]
    && (forall i :: 0 <= i < size ==>
          after[i] == if Distance(size, w, i) < |data| then data[Distance(size, w, i)] else before[i])
  }

  /** Putting bytes at the write cursor appends them to the ring. */
  lemma PutAppends(before: seq<byte>, after: seq<byte>, size: nat, w: nat, used: nat, data: seq<byte>)
    requires w <= size <= |before| && used + |data| <= size
    requires PutAt(before, after, size, w, data)
    ensures Ring(after, size, Advanced(size, w, |data|), used + |data|) == Ring(before, size, w, used) + data
  {
    var r' := ReadCursor(size, Advanced(size, w, |data|), used + |data|);
    var older, newer := Ring(before, size, w, used), Ring(after, size, Advanced(size, w, |data|), used + |data|);
    forall k | 0 <= k < used + |data| ensures newer[k] == (older + data)[k] {
      var i := Place(size, r', k);
      assert newer[k] == after[i];
      if k < used {
        assert older[k] == before[i];
      } else {
        assert Distance(size, w, i) == k - used;
      }
    }
  }

  /** Taking bytes out only moves the read cursor. */
  lemma TakeDrops(buffer: seq<byte>, size: nat, w: nat, used: nat, n: nat)
    requires w <= size <= |buffer| && n <= used <= size
    ensures Ring(buffer, size, w, used - n) == Ring(buffer, size, w, used)[n..]
  {
    var older, newer := Ring(buffer, size, w, used), Ring(buffer, size, w, used - n);
    forall k | 0 <= k < used - n ensures newer[k] == older[n..][k] {
      assert older[n..][k] == older[n + k];
    }
  }

  // ---------------------------------------------------------------- the cache

  datatype HiviewCacheType =
    CORE_CACHE | LOG_CACHE | JS_LOG_CACHE | DUMP_CACHE | FAULT_EVENT_CACHE | UE_EVENT_CACHE | STAT_EVENT_CACHE

  class HiviewCache {
    var wCursor: uint16
    var usedSize: uint16
    var size: uint16
    var cacheType: HiviewCacheType
    var buffer: array?<byte>

    ghost predicate Valid()
      reads this
    {
      wCursor <= size && usedSize <= size && (buffer != null ==> size <= buffer.Length)
    }

    ghost function Contents(): seq<byte>
      reads this, buffer
      requires Valid() && buffer != null
    {
      Ring(buffer[..], size, wCursor, usedSize)
    }

    /** The state before one of the initialization functions is called. */
    constructor ()
      ensures Valid() && buffer == null
    {
      wCursor, usedSize, size, cacheType, buffer := 0, 0, 0, CORE_CACHE, null;
    }
  }

  method Memcpy(dest: array<byte>, d: nat, src: array<byte>, s: nat, n: nat)
    requires d + n <= dest.Length && s + n <= src.Length && dest != src
    modifies dest
    ensures forall i :: 0 <= i < dest.Length ==>
              dest[i] == if d <= i < d + n then src[s + i - d] else old(dest[i])
  {
    forall k | 0 <= k < n {
      dest[d + k] := src[s + k];
    }
  }

  method InitHiviewStaticCache(cache: HiviewCache?, t: HiviewCacheType, buffer: array?<byte>, size: uint16)
      returns (ok: bool)
    requires buffer != null ==> size <= buffer.Length
    modifies cache
    ensures ok <==> cache != null
    ensures ok ==> cache.Valid() && cache.buffer == buffer && cache.size == size && cache.cacheType == t
    ensures ok && buffer != null ==> cache.Contents() == []
  {
    if cache == null {
      return false;
    }
    cache.usedSize, cache.wCursor := 0, 0;
    cache.buffer, cache.size, cache.cacheType := buffer, size, t;
    return true;
  }

  /** `room` says whether the allocator has room for the buffer. */
  method InitHiviewCache(cache: HiviewCache?, t: HiviewCacheType, size: uint16, room: bool) returns (ok: bool)
    modifies cache
    ensures ok <==> cache != null && room
    ensures ok ==> cache.Valid() && cache.buffer != null && fresh(cache.buffer)
    ensures ok ==> cache.size == size && cache.cacheType == t && cache.Contents() == []
    ensures !ok && cache != null ==> unchanged(cache)
  {
    if cache == null || !room {
      return false;
    }
    cache.buffer := new byte[size](i => 0);
    cache.usedSize, cache.wCursor := 0, 0;
    cache.size, cache.cacheType := size, t;
    return true;
  }

  /** The part of `Put` for bytes that go beyond the end of the buffer. */
  method PutAround(cache: HiviewCache, data: array<byte>, wLen: uint16)
    requires cache.Valid() && cache.buffer != null && cache.buffer != data
    requires wLen <= data.Length && wLen + cache.usedSize <= cache.size && cache.wCursor + wLen > cache.size
    modifies cache`wCursor, cache`usedSize, cache.buffer
    ensures PutAt(old(cache.buffer[..]), cache.buffer[..], cache.size, old(cache.wCursor), data[..wLen])
    ensures cache.wCursor == Advanced(cache.size, old(cache.wCursor), wLen)
    ensures cache.usedSize == old(cache.usedSize) + wLen
  {
    var firstLen: uint16 := cache.size - cache.wCursor;
    if firstLen > 0 {
      Memcpy(cache.buffer, cache.wCursor, data, 0, firstLen);
      cache.wCursor := cache.wCursor + firstLen;
      cache.usedSize := cache.usedSize + firstLen;
    }
    cache.wCursor := 0;
    var secondLen: uint16 := wLen - firstLen;
    if secondLen > 0 {
      Memcpy(cache.buffer, cache.wCursor, data, firstLen, secondLen);
      cache.wCursor := cache.wCursor + secondLen;
      cache.usedSize := cache.usedSize + secondLen;
    }
  }

  /** Copies `wLen` bytes of `data` to the write cursor, going round at the end of the buffer. */
  method Put(cache: HiviewCache, data: array<byte>, wLen: uint16)
    requires cache.Valid() && cache.buffer != null && cache.buffer != data
    requires wLen <= data.Length && wLen + cache.usedSize <= cache.size
    modifies cache`wCursor, cache`usedSize, cache.buffer
    ensures PutAt(old(cache.buffer[..]), cache.buffer[..], cache.size, old(cache.wCursor), data[..wLen])
    ensures cache.wCursor == Advanced(cache.size, old(cache.wCursor), wLen)
    ensures cache.usedSize == old(cache.usedSize) + wLen
  {
    if cache.wCursor + wLen > cache.size {
      PutAround(cache, data, wLen);
    } else {
      Memcpy(cache.buffer, cache.wCursor, data, 0, wLen);
      cache.wCursor := cache.wCursor + wLen;
      cache.usedSize := cache.usedSize + wLen;
    }
  }

  /** Appends all `wLen` bytes, or none when they do not fit. */
  method WriteToCache(cache: HiviewCache?, data: array?<byte>, wLen: uint16) returns (r: int)
    requires cache != null ==> cache.Valid()
    requires data != null ==> wLen <= data.Length && (cache != null ==> cache.buffer != data)
    modifies cache, if cache != null then cache.buffer else null
    ensures cache != null ==> cache.Valid() && cache.buffer == old(cache.buffer) && cache.size == old(cache.size)
    ensures r == (if cache == null || data == null || cache.buffer == null
                     || cache.size < wLen + old(cache.usedSize) then -1 else wLen)
    ensures cache != null && cache.buffer != null ==>
              cache.Contents() == if r < 0 then old(cache.Contents()) else old(cache.Contents()) + data[..wLen]
  {
    if cache == null || data == null || cache.buffer == null {
      return -1;
    }
    if cache.size < wLen + cache.usedSize {
      return -1;
    }
    ghost var before, w, used := cache.buffer[..], cache.wCursor, cache.usedSize;
    Put(cache, data, wLen);
    PutAppends(before, cache.buffer[..], cache.size, w, used, data[..wLen]);
    return wLen;
  }

  /** Copies the `rLen` oldest bytes to `data`; they stay in the cache. */
  method Peek(cache: HiviewCache, data: array<byte>, rLen: uint16)
    requires cache.Valid() && cache.buffer != null && cache.buffer != data
    requires rLen <= data.Length && rLen <= cache.usedSize
    modifies data
    ensures data[..rLen] == cache.Contents()[..rLen]
    ensures data[rLen..] == old(data[rLen..])
  {
    ghost var contents := cache.Contents();
    var rCursor: uint16 := ReadCursor(cache.size, cache.wCursor, cache.usedSize);
    if rCursor + rLen > cache.size {
      var firstLen: uint16 := cache.size - rCursor;
      if firstLen > 0 {
        Memcpy(data, 0, cache.buffer, rCursor, firstLen);
      }
      var secondLen: uint16 := rLen - firstLen;
      if secondLen > 0 {
        Memcpy(data, firstLen, cache.buffer, 0, secondLen);
      }
    } else {
      Memcpy(data, 0, cache.buffer, rCursor, rLen);
    }
    forall k | 0 <= k < rLen ensures data[k] == contents[k] {
      assert contents[k] == cache.buffer[Place(cache.size, rCursor, k)];
    }
  }

  /** Takes the `rLen` oldest bytes out of the cache, or nothing when there are fewer. */
  method ReadFromCache(cache: HiviewCache?, data: array?<byte>, rLen: uint16) returns (r: int)
    requires cache != null ==> cache.Valid()
    requires data != null ==> rLen <= data.Length && (cache != null ==> cache.buffer != data)
    modifies cache, data
    ensures cache != null ==> cache.Valid() && cache.buffer == old(cache.buffer) && cache.size == old(cache.size)
    ensures r == (if cache == null || data == null || cache.buffer == null || old(cache.usedSize) < rLen
                  then -1 else rLen)
    ensures r >= 0 ==> data[..rLen] == old(cache.Contents())[..rLen]
                       && data[rLen..] == old(data[rLen..])
    ensures r >= 0 ==> cache.Contents() == old(cache.Contents())[rLen..]
    ensures r < 0 ==> (data != null ==> unchanged(data)) && (cache != null ==> unchanged(cache))
  {
    if cache == null || data == null || cache.buffer == null {
      return -1;
    }
    if cache.usedSize < rLen {
      return -1;
    }
    Peek(cache, data, rLen);
    TakeDrops(cache.buffer[..], cache.size, cache.wCursor, cache.usedSize, rLen);
    cache.usedSize := cache.usedSize - rLen;
    return rLen;
  }

  /** Shows what the next read would return. */
  method PrereadFromCache(cache: HiviewCache?, data: array?<byte>, rLen: uint16) returns (r: int)
    requires cache != null ==> cache.Valid()
    requires data != null ==> rLen <= data.Length && (cache != null ==> cache.buffer != data)
    modifies data
    ensures r == (if cache == null || data == null || cache.buffer == null || cache.usedSize < rLen
                  then -1 else rLen)
    ensures r >= 0 ==> data[..rLen] == cache.Contents()[..rLen]
    ensures r < 0 && data != null ==> unchanged(data)
  {
    if cache == null || data == null || cache.buffer == null {
      return -1;
    }
    if cache.usedSize < rLen {
      return -1;
    }
    Peek(cache, data, rLen);
    return rLen;
  }

  method DiscardCacheData(cache: HiviewCache?)
    requires cache != null ==> cache.Valid()
    modifies cache
    ensures cache != null ==> cache.Valid() && cache.buffer == old(cache.buffer) && cache.size == old(cache.size)
    ensures cache != null && cache.buffer != null ==> cache.Contents() == []
  {
    if cache == null {
      return;
    }
    cache.wCursor, cache.usedSize := 0, 0;
  }

  method DestroyCache(cache: HiviewCache?)
    modifies cache
    ensures cache != null ==> cache.Valid() && cache.buffer == null && cache.size == 0
  {
    if cache == null {
      return;
    }
    cache.buffer := null;
    cache.wCursor, cache.usedSize, cache.size := 0, 0, 0;
  }
}
