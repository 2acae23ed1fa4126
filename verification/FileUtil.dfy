/** The file helpers over a file system that may fail: reads and writes may be short or refused unless the
    file system is reliable. Copying works for every way the reads may be cut. */
module FileUtil {
  import opened Common
  import opened Wire
  import opened LogFile

  const BUFFER_SIZE := 128

  /** An open file: where it is, and the offset. */
  datatype Handle = Handle(path: string, pos: nat)

  class FileSystem {
    var files: map<string, Bytes>
    var handles: map<int, Handle>
    var next: nat
    /** Whether every operation that can succeed does so completely. */
    const reliable: bool

    /** The descriptor is open, and its file has not been unlinked. */
    predicate IsOpen(fd: int)
      reads this
    {
      fd in handles && handles[fd].path in files
    }

    ghost predicate Valid()
      reads this
    {
      forall fd :: fd in handles ==> 0 <= fd < next
    }

    constructor (reliable: bool)
      ensures Valid() && files == map[] && handles == map[] && this.reliable == reliable
    {
      files, handles, next, this.reliable := map[], map[], 0, reliable;
    }

    /** open(2): a descriptor that was not in use, or a negative number. */
    method Open(path: string, create: bool, truncate: bool) returns (fd: int)
      requires Valid()
      modifies this
      ensures Valid()
      ensures fd >= 0 ==> fd !in old(handles) && handles == old(handles)[fd := Handle(path, 0)]
      ensures fd >= 0 ==> (create || path in old(files)) &&
                          files == if truncate || path !in old(files) then old(files)[path := []] else old(files)
      ensures fd < 0 ==> unchanged(this)
      ensures reliable && (create || path in old(files)) ==> fd >= 0
    {
      var refuse := *;
      if (refuse && !reliable) || (path !in files && !create) {
        return -1;
      }
      if truncate || path !in files {
        files := files[path := []];
      }
      fd := next;
      next := next + 1;
      handles := handles[fd := Handle(path, 0)];
    }

    method HIVIEW_FileClose(fd: int) returns (r: int)
      requires Valid()
      modifies this`handles
      ensures Valid() && handles == old(handles) - {fd}
      ensures reliable && fd in old(handles) ==> r == 0
    {
      r := if fd in handles then 0 else -1;
      var refuse := *;
      if refuse && !reliable {
        r := -1;
      }
      handles := handles - {fd};
    }

    /** Reads up to `len` bytes at the offset: none at the end of the file, else at least one, or -1. */
    method HIVIEW_FileRead(fd: int, buf: array<byte>, len: nat) returns (n: int)
      requires Valid() && IsOpen(fd) && len <= buf.Length
      modifies this`handles, buf
      ensures Valid() && -1 <= n <= len
      ensures var h := old(handles[fd]);
              && handles == old(handles)[fd := h.(pos := h.pos + if n < 0 then 0 else n)]
              && (n > 0 ==> h.pos + n <= |files[h.path]| && buf[..n] == files[h.path][h.pos..h.pos + n])
              && (n == 0 ==> len == 0 || |files[h.path]| <= h.pos)
              && (reliable ==> n == if h.pos + len <= |files[h.path]| then len
                                    else if h.pos <= |files[h.path]| then |files[h.path]| - h.pos else 0)
    {
      var h := handles[fd];
      var file := files[h.path];
      n := if h.pos + len <= |file| then len else if h.pos <= |file| then |file| - h.pos else 0;
      var cut: int := *;
      if !reliable && (cut == -1 || 0 < cut < n) {
        n := cut;
      }
      if n > 0 {
        forall i | 0 <= i < n {
          buf[i] := file[h.pos + i];
        }
        handles := handles[fd := h.(pos := h.pos + n)];
      } else {
        handles := handles[fd := h];
      }
    }

    /** Writes the first `len` bytes of the buffer at the offset; fewer, or none and -1, on failure. */
    method HIVIEW_FileWrite(fd: int, buf: array<byte>, len: nat) returns (n: int)
      requires Valid() && IsOpen(fd) && len <= buf.Length
      modifies this
      ensures Valid() && -1 <= n <= len
      ensures var h, k := old(handles[fd]), if n < 0 then 0 else n;
              && handles == old(handles)[fd := h.(pos := h.pos + k)]
              && files == (if k == 0 then old(files)
                           else old(files)[h.path := Overwrite(old(files[h.path]), h.pos, buf[..k])])
      ensures reliable ==> n == len
    {
      var h := handles[fd];
      n := len;
      var cut: int := *;
      if !reliable && -1 <= cut < len {
        n := cut;
      }
      if n > 0 {
        files := files[h.path := Overwrite(files[h.path], h.pos, buf[..n])];
        handles := handles[fd := h.(pos := h.pos + n)];
      } else {
        handles := handles[fd := h];
      }
    }

    /** lseek from the start of the file; the offset is a signed number of 32 bits. */
    method HIVIEW_FileSeek(fd: int, offset: uint32) returns (r: int)
      requires Valid()
      modifies this`handles
      ensures Valid()
      ensures r >= 0 ==> IsOpen(fd) && offset < 0x8000_0000 && fd in old(handles) &&
                         handles == old(handles)[fd := old(handles[fd]).(pos := offset)]
      ensures r < 0 ==> handles == old(handles)
      ensures reliable && old(IsOpen(fd)) && offset < 0x8000_0000 ==> r >= 0
    {
      var refuse := *;
      if (refuse && !reliable) || offset >= 0x8000_0000 || !IsOpen(fd) {
        return -1;
      }
      handles := handles[fd := handles[fd].(pos := offset)];
      return offset;
    }

    /** lseek to the end of the file, whose position comes back as a number of 32 bits. */
    method HIVIEW_FileSize(fd: int) returns (r: uint32)
      requires Valid() && IsOpen(fd)
      modifies this`handles
      ensures Valid()
      ensures var h := old(handles[fd]);
              r == Uint32(|files[h.path]|) && handles == old(handles)[fd := h.(pos := |files[h.path]|)]
    {
      var size := |files[handles[fd].path]|;
      handles := handles[fd := handles[fd].(pos := size)];
      return Uint32(size);
    }

    method HIVIEW_FileUnlink(path: string) returns (r: int)
      requires Valid()
      modifies this`files
      ensures Valid()
      ensures files == if r == 0 then old(files) - {path} else old(files)
      ensures r == 0 ==> path in old(files)
      ensures reliable && path in old(files) ==> r == 0
    {
      var refuse := *;
      if (refuse && !reliable) || path !in files {
        return -1;
      }
      files := files - {path};
      return 0;
    }
  }

  /** What a copy or a move leaves, when it says that it has succeeded. A file that is copied to itself is
      emptied first. */
  function Copied(files: map<string, Bytes>, src: string, dest: string): map<string, Bytes>
    requires src in files
  {
    files[dest := if src == dest then [] else files[src]]
  }

  /** No file but those named is different. */
  ghost predicate SameBut(before: map<string, Bytes>, after: map<string, Bytes>, paths: set<string>) {
    forall p :: p !in paths ==> (p in after <==> p in before) && (p in after ==> after[p] == before[p])
  }

  lemma NextChunk(content: Bytes, k: nat, n: nat)
    requires k + n <= |content|
    ensures Overwrite(content[..k], k, content[k..k + n]) == content[..k + n]
  {
  }

  /** The loop of the copy, after both files are opened. */
  method CopyLoop(fs: FileSystem, fdSrc: int, fdDest: int, dataBuf: array<byte>) returns (copyFailed: bool)
    requires fs.Valid() && fs.IsOpen(fdSrc) && fs.IsOpen(fdDest) && fdSrc != fdDest && dataBuf.Length == BUFFER_SIZE
    requires fs.handles[fdSrc].pos == 0 && fs.handles[fdDest].pos == 0 && fs.files[fs.handles[fdDest].path] == []
    modifies fs, dataBuf
    ensures fs.Valid() && fs.handles - {fdSrc, fdDest} == old(fs.handles) - {fdSrc, fdDest}
    ensures var src, dest := old(fs.handles[fdSrc].path), old(fs.handles[fdDest].path);
            && dest in fs.files && fs.files == old(fs.files)[dest := fs.files[dest]]
            && (!copyFailed ==> fs.files[dest] == old(fs.files)[src])
    ensures fs.reliable ==> !copyFailed
  {
    hide Overwrite, SameBut;
    ghost var src, dest := fs.handles[fdSrc].path, fs.handles[fdDest].path;
    ghost var content, before := fs.files[src], fs.files;
    ghost var k := 0;
    var nLen := fs.HIVIEW_FileRead(fdSrc, dataBuf, BUFFER_SIZE);
    while nLen > 0
      invariant fs.Valid() && fdSrc in fs.handles && fdDest in fs.handles && -1 <= nLen <= BUFFER_SIZE
      invariant fs.handles - {fdSrc, fdDest} == old(fs.handles) - {fdSrc, fdDest}
      invariant 0 <= k <= |content| && fs.files == before[dest := content[..k]] && (k > 0 ==> src != dest)
      invariant fs.handles[fdDest] == Handle(dest, k)
      invariant fs.handles[fdSrc] == Handle(src, k + if nLen < 0 then 0 else nLen)
      invariant nLen > 0 ==> src != dest && k + nLen <= |content| && dataBuf[..nLen] == content[k..k + nLen]
      invariant nLen == 0 ==> k == |content|
      invariant fs.reliable ==> nLen >= 0
      decreases |content| - k
    {
      var written := fs.HIVIEW_FileWrite(fdDest, dataBuf, nLen);
      if written != nLen {
        return true;
      }
      NextChunk(content, k, nLen);
      k := k + nLen;
      nLen := fs.HIVIEW_FileRead(fdSrc, dataBuf, BUFFER_SIZE);
    }
    return nLen < 0;
  }

  /** Closing the two descriptors brings the old ones back. */
  lemma CloseBoth(handles: map<int, Handle>, a: int, src: string, b: int, dest: string)
    requires a !in handles && b !in handles && a != b
    ensures handles[a := Handle(src, 0)][b := Handle(dest, 0)] - {a, b} == handles
    ensures forall more: map<int, Handle> :: more - {a, b} == handles ==> more - {a} - {b} == handles
  {
  }

  /** Copies the file, for every way the reads may be cut: a reply of zero means that the copy is complete. */
  method HIVIEW_FileCopy(fs: FileSystem, src: string, dest: string) returns (ret: int)
    requires fs.Valid()
    modifies fs
    ensures fs.Valid() && fs.handles == old(fs.handles)
    ensures ret == 0 ==> src in old(fs.files) && fs.files == Copied(old(fs.files), src, dest)
    ensures ret == 0 ==> dest in fs.files && (src != dest ==> fs.files[dest] == old(fs.files)[src])
    ensures SameBut(old(fs.files), fs.files, {dest})
    ensures fs.reliable ==> (ret == 0 <==> src in old(fs.files))
  {
    var fdSrc := fs.Open(src, false, false);
    if fdSrc < 0 {
      return fdSrc;
    }
    var fdDest := fs.Open(dest, true, true);
    if fdDest < 0 {
      var _ := fs.HIVIEW_FileClose(fdSrc);
      return fdDest;
    }
    CloseBoth(old(fs.handles), fdSrc, src, fdDest, dest);
    var dataBuf := new byte[BUFFER_SIZE];
    var copyFailed := CopyLoop(fs, fdSrc, fdDest, dataBuf);
    var _ := fs.HIVIEW_FileClose(fdSrc);
    var _ := fs.HIVIEW_FileClose(fdDest);
    assert fs.handles == old(fs.handles);
    if copyFailed {
      var _ := fs.HIVIEW_FileUnlink(dest);
      return -1;
    }
    return 0;
  }

  /** Copies the file and unlinks the source, whatever came of the copy. After a reply of zero the source is
      gone, and its content is at the destination exactly when that is another place. */
  method HIVIEW_FileMove(fs: FileSystem, src: string, dest: string) returns (ret: int)
    requires fs.Valid()
    modifies fs
    ensures fs.Valid() && fs.handles == old(fs.handles)
    ensures ret == 0 ==> src in old(fs.files) && fs.files == Copied(old(fs.files), src, dest) - {src}
    ensures ret == 0 ==> (dest in fs.files && fs.files[dest] == old(fs.files)[src] <==> src != dest)
    ensures SameBut(old(fs.files), fs.files, {src, dest})
    ensures fs.reliable ==> (ret == 0 <==> src in old(fs.files))
  {
    var copied := HIVIEW_FileCopy(fs, src, dest);
    var unlinked := fs.HIVIEW_FileUnlink(src);
    if unlinked != 0 || copied != 0 {
      return -1;
    }
    return 0;
  }

  /** Builds the number from its bytes in the other order. The masks pick disjoint bits, so that a sum stands
      for the source's bitwise or. */
  method Change32Endian(num: uint32) returns (newEndian: uint32)
    ensures newEndian == Swap32(num)
    ensures Le32(newEndian)[0] == Le32(num)[3] && Le32(newEndian)[1] == Le32(num)[2]
    ensures Le32(newEndian)[2] == Le32(num)[1] && Le32(newEndian)[3] == Le32(num)[0]
  {
    var buffer := Le32(num);
    FromLe32RoundTrip([buffer[3], buffer[2], buffer[1], buffer[0]]);
    hide Le32;
    newEndian := buffer[3];
    newEndian := newEndian + 0x100 * (buffer[2] as int);
    newEndian := newEndian + 0x1_0000 * (buffer[1] as int);
    newEndian := newEndian + 0x100_0000 * (buffer[0] as int);
  }
}
