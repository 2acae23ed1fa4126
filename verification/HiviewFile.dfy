/** The log file as an object: the header in memory and the descriptor, changed in place as the file is
    opened, written, read and moved away. Contracts that speak of a reliable file system give the whole
    result; the others hold whatever fails. */
module HiviewFiles {
  import opened Common
  import opened Wire
  import opened LogFile
  import opened LogRuns
  import opened FileUtil

  /** The default destinations, in the default directory. */
  const HIVIEW_FILE_OUT_PATH_LOG := "debug.log"
  const HIVIEW_FILE_OUT_PATH_UE_EVENT := "ue.event"

  datatype FileProcMode = HIVIEW_FILE_COPY | HIVIEW_FILE_RENAME

  class HiviewFile {
    var header: Header
    const path: string
    var outPath: string
    var fhandle: int
    /** Whether a watcher is registered, and the paths that it was told about. */
    var watched: bool
    var reports: seq<string>

    constructor (header: Header, path: string, outPath: string)
      ensures this.header == header && this.path == path && this.outPath == outPath && fhandle == -1 && !watched
    {
      this.header, this.path, this.outPath, fhandle := header, path, outPath, -1;
      watched, reports := false, [];
    }

    /** The descriptor is open on this file. */
    predicate Attached(fs: FileSystem)
      reads this, fs
    {
      fs.IsOpen(fhandle) && fs.handles[fhandle].path == path
    }

    /** The descriptor, when it is open, is open on this file. It may be a closed one after a failure. */
    ghost predicate Tied(fs: FileSystem)
      reads this, fs
    {
      fs.Valid() && (fhandle in fs.handles ==> Attached(fs))
    }

    /** The state that LogFile and LogRuns talk about. */
    function State(fs: FileSystem): Log
      requires path in fs.files
      reads this, fs
    {
      Log(header, fs.files[path], if outPath in fs.files then Some(fs.files[outPath]) else None)
    }
  }

  method ToArray(b: Bytes) returns (a: array<byte>)
    ensures fresh(a) && a[..] == b
  {
    a := new byte[|b|](i requires 0 <= i < |b| => b[i]);
  }

  method WriteFileHeader(fp: HiviewFile, fs: FileSystem) returns (ok: bool)
    requires fp.Tied(fs)
    modifies fs
    ensures fp.Tied(fs) && (ok ==> fp.Attached(fs)) && (old(fp.Attached(fs)) ==> fp.Attached(fs))
    ensures ok ==> fp.path in old(fs.files) &&
                   fs.files == old(fs.files)[fp.path := Overwrite(old(fs.files)[fp.path], 0, OnDisk(fp.header))]
    ensures SameBut(old(fs.files), fs.files, {fp.path})
    ensures fs.reliable && old(fp.Attached(fs)) ==> ok
  {
    hide Overwrite, Swap32, Image;
    if fp.fhandle < 0 {
      return false;
    }
    var sought := fs.HIVIEW_FileSeek(fp.fhandle, 0);
    if sought >= 0 {
      var prefix := Change32Endian(fp.header.prefix);
      var version := Change32Endian(fp.header.defineFileVersion);
      var time := Change32Endian(fp.header.createTime);
      var tmpHeader := fp.header.(prefix := prefix, defineFileVersion := version, createTime := time);
      var buf := ToArray(Image(tmpHeader));
      var ret := fs.HIVIEW_FileWrite(fp.fhandle, buf, HEADER_SIZE);
      if ret == HEADER_SIZE {
        assert buf[..HEADER_SIZE] == buf[..];
        return true;
      }
    }
    return false;
  }

  /** Takes the header of the file over, with the cursors at the start and the end of its bytes, when it is
      one of this code. */
  method ReadFileHeader(fp: HiviewFile, fs: FileSystem) returns (ok: bool)
    requires fp.Tied(fs)
    modifies fs`handles, fp`header
    ensures fp.Tied(fs) && (ok ==> fp.Attached(fs)) && (old(fp.Attached(fs)) ==> fp.Attached(fs))
    ensures ok ==> Recognised(fs.files[fp.path]) &&
                   var file := fs.files[fp.path];
                   fp.header == FromDisk(file[..HEADER_SIZE]).(wCursor := Uint32(|file|), rCursor := HEADER_SIZE)
    ensures !ok ==> fp.header == old(fp.header)
    ensures fs.reliable && old(fp.Attached(fs)) ==> (ok <==> Recognised(fs.files[fp.path]))
  {
    hide Swap32, FromImage;
    if fp.fhandle < 0 {
      return false;
    }
    var sought := fs.HIVIEW_FileSeek(fp.fhandle, 0);
    if sought < 0 {
      return false;
    }
    var buf := new byte[HEADER_SIZE](_ => 0);
    ghost var file := fs.files[fp.path];
    var ret := fs.HIVIEW_FileRead(fp.fhandle, buf, HEADER_SIZE);
    assert buf[..] == buf[..HEADER_SIZE];
    assert ret == HEADER_SIZE ==> |file| >= HEADER_SIZE && buf[..] == file[..HEADER_SIZE];
    assert fs.reliable && |file| >= HEADER_SIZE ==> ret == HEADER_SIZE;
    var h := FromImage(buf[..]);
    var prefix := Change32Endian(h.prefix);
    var version := Change32Endian(h.defineFileVersion);
    var time := Change32Endian(h.createTime);
    h := h.(prefix := prefix, defineFileVersion := version, createTime := time);
    var size := fs.HIVIEW_FileSize(fp.fhandle);
    h := h.(wCursor := size, rCursor := HEADER_SIZE);
    if ret == HEADER_SIZE && KnownPrefix(h.prefix) && h.wCursor >= HEADER_SIZE {
      fp.header := h;
      return true;
    }
    return false;
  }

  predicate Ordered(h: Header) {
    h.rCursor <= h.wCursor
  }

  /** The content of a path, empty when there is no file. */
  function Content(files: map<string, Bytes>, path: string): Bytes {
    if path in files then files[path] else []
  }

  /** Opens or creates the file, and takes its header over or writes a new one. */
  method InitHiviewFile(fp: HiviewFile, fs: FileSystem, fileType: uint8, size: uint32, now: uint32) returns (ok: bool)
    requires fs.Valid()
    modifies fs, fp`header, fp`fhandle
    ensures fp.Tied(fs) && (ok ==> fp.Attached(fs))
    ensures SameBut(old(fs.files), fs.files, {fp.path})
    ensures ok ==> fp.header.rCursor == HEADER_SIZE
    ensures Ordered(old(fp.header)) ==> Ordered(fp.header)
    ensures fs.reliable ==> ok
    ensures fs.reliable ==> var (header, file) := Opened(old(fp.header), fileType, size, now, Content(old(fs.files), fp.path));
                            fp.header == header && fs.files == old(fs.files)[fp.path := file]
  {
    hide FromDisk, OnDisk, Overwrite, GetDefineFileVersion, KnownPrefix;
    var fd := fs.Open(fp.path, true, false);
    fp.fhandle := fd;
    if fp.fhandle < 0 {
      return false;
    }
    fp.header := fp.header.(fileType := fileType, size := Uint32(size + HEADER_SIZE));
    var read := ReadFileHeader(fp, fs);
    if !read {
      fp.header := fp.header.(
      prefix := PrefixOf(fileType, fp.header.prefix),
      codeMainVersion := HIVIEW_FILE_HEADER_MAIN_VERSION, codeSubVersion := HIVIEW_FILE_HEADER_SUB_VERSION,
      defineFileVersion := GetDefineFileVersion(fileType), createTime := now,
      rCursor := HEADER_SIZE, wCursor := HEADER_SIZE);
      ok := WriteFileHeader(fp, fs);
    } else {
      fp.header := fp.header.(
      codeMainVersion := HIVIEW_FILE_HEADER_MAIN_VERSION, codeSubVersion := HIVIEW_FILE_HEADER_SUB_VERSION,
      defineFileVersion := GetDefineFileVersion(fp.header.fileType));
      ok := true;
    }
  }

  /** Copies the file to `dest` and goes on with it, or moves it there and starts a new one. */
  method ProcFile(fp: HiviewFile, fs: FileSystem, dest: string, mode: FileProcMode, now: uint32) returns (r: int)
    requires fp.Tied(fs) && dest != fp.path
    modifies fs, fp`header, fp`fhandle
    ensures fp.Tied(fs) && (r == 0 ==> fp.Attached(fs))
    ensures SameBut(old(fs.files), fs.files, {fp.path, dest})
    ensures Ordered(old(fp.header)) ==> Ordered(fp.header)
    ensures fs.reliable && old(fp.Attached(fs)) ==> r == 0 && var file := old(fs.files)[fp.path];
              match mode
              case HIVIEW_FILE_COPY => fp.header == old(fp.header) && fs.files == old(fs.files)[dest := file]
              case HIVIEW_FILE_RENAME =>
                var h := old(fp.header);
                var (header, empty) := Opened(h, h.fileType, Uint32(h.size - HEADER_SIZE), now, []);
                fp.header == header && fs.files == old(fs.files)[dest := file][fp.path := empty]
  {
    hide Overwrite, Opened;
    if fp.fhandle < 0 {
      return -1;
    }
    var closed := fs.HIVIEW_FileClose(fp.fhandle);
    if closed != 0 {
      return -1;
    }
    match mode
    case HIVIEW_FILE_COPY =>
      var ret := HIVIEW_FileCopy(fs, fp.path, dest);
      var fd := fs.Open(fp.path, true, false);
      fp.fhandle := fd;
      if ret != 0 || fp.fhandle < 0 {
        return -1;
      }
      return 0;
    case HIVIEW_FILE_RENAME =>
      var fileType, size := fp.header.fileType, Uint32(fp.header.size - HEADER_SIZE);
      var ret := HIVIEW_FileMove(fs, fp.path, dest);
      var ok := InitHiviewFile(fp, fs, fileType, size, now);
      if !ok || ret != 0 {
        return -1;
      }
      return 0;
  }

  /** The first part of WriteToFile: rotates the file when the bytes do not fit behind the others. */
  method MakeRoom(fp: HiviewFile, fs: FileSystem, len: uint32, max: uint32, now: uint32)
    requires fp.Tied(fs) && fp.path != fp.outPath
    modifies fs, fp`header, fp`fhandle, fp`reports
    ensures fp.Tied(fs) && SameBut(old(fs.files), fs.files, {fp.path, fp.outPath})
    ensures Ordered(old(fp.header)) ==> Ordered(fp.header)
    ensures var full := Overflows(old(fp.header), len, max);
            && fp.reports == old(fp.reports) + (if full && fp.watched then [fp.outPath] else [])
            && (fs.reliable && old(fp.Attached(fs)) ==>
                  && fp.Attached(fs)
                  && fp.State(fs) == if full then Rotate(old(fp.State(fs)), now) else old(fp.State(fs)))
  {
    hide Opened;
    if Uint32(fp.header.wCursor + len) > fp.header.size || Uint32(fp.header.wCursor + len) > max {
      var _ := ProcFile(fp, fs, fp.outPath, HIVIEW_FILE_RENAME, now);
      if fp.watched {
        fp.reports := fp.reports + [fp.outPath];
      }
    }
  }

  lemma OverwriteAt(file: Bytes, pos: nat, data: Bytes)
    ensures pos + |data| <= |Overwrite(file, pos, data)|
    ensures Overwrite(file, pos, data)[pos..pos + |data|] == data
  {
  }

  /** The second part: writes at the write cursor, and moves it on when all is written. */
  method WriteAtCursor(fp: HiviewFile, fs: FileSystem, data: array<byte>, len: uint32) returns (wLen: int)
    requires fp.Tied(fs) && len <= data.Length && 0 < len < 0x8000_0000
    modifies fs, fp`header
    ensures fp.Tied(fs) && (wLen == 0 || wLen == len) && SameBut(old(fs.files), fs.files, {fp.path})
    ensures wLen > 0 ==> fp.Attached(fs) && len <= fp.header.wCursor <= |fs.files[fp.path]| &&
                         fs.files[fp.path][fp.header.wCursor - len..fp.header.wCursor] == data[..len]
    ensures Ordered(old(fp.header)) ==> Ordered(fp.header)
    ensures fs.reliable && old(fp.Attached(fs)) && old(fp.header).wCursor < 0x8000_0000 && fp.path != fp.outPath ==>
              fp.Attached(fs) && wLen == len && fp.State(fs) == Append(old(fp.State(fs)), data[..len])
  {
    hide Overwrite;
    var sought := fs.HIVIEW_FileSeek(fp.fhandle, fp.header.wCursor);
    if sought < 0 {
      return 0;
    }
    wLen := 0;
    OverwriteAt(fs.files[fp.path], fp.header.wCursor, data[..len]);
    var written := fs.HIVIEW_FileWrite(fp.fhandle, data, len);
    if written == len {
      fp.header := fp.header.(wCursor := Uint32(fp.header.wCursor + len));
      wLen := wLen + len;
    }
  }

  /** Appends the bytes, after a rotation when they do not fit behind the others. A reply other than zero
      says that all of them are in the file, directly before the write cursor, whatever else has failed. */
  method WriteToFile(fp: HiviewFile, fs: FileSystem, data: array<byte>, len: uint32, max: uint32, now: uint32)
      returns (wLen: int)
    requires fp.Tied(fs) && fp.path != fp.outPath && len <= data.Length && len < 0x8000_0000
    modifies fs, fp`header, fp`fhandle, fp`reports
    ensures fp.Tied(fs) && (wLen == 0 || wLen == len)
    ensures SameBut(old(fs.files), fs.files, {fp.path, fp.outPath})
    ensures wLen > 0 ==> fp.Attached(fs) && len <= fp.header.wCursor <= |fs.files[fp.path]| &&
                         fs.files[fp.path][fp.header.wCursor - len..fp.header.wCursor] == data[..len]
    ensures Ordered(old(fp.header)) ==> Ordered(fp.header)
    ensures fs.reliable && old(fp.Attached(fs)) && Cursors(old(fp.State(fs)), max) ==>
              && fp.Attached(fs) && wLen == len
              && fp.State(fs) == Write(old(fp.State(fs)), data[..len], max, now)
              && fp.reports == old(fp.reports) +
                   if len > 0 && Overflows(old(fp.header), len, max) && fp.watched then [fp.outPath] else []
  {
    if fp.fhandle < 0 || len == 0 {
      return 0;
    }
    RotatedCursor(fp.header, now);
    hide Opened, Append, Overflows;
    MakeRoom(fp, fs, len, max, now);
    wLen := WriteAtCursor(fp, fs, data, len);
  }

  /** The cursor of a new file can be reached by a seek. */
  lemma RotatedCursor(h: Header, now: uint32)
    ensures Opened(h, h.fileType, Uint32(h.size - HEADER_SIZE), now, []).0.wCursor == HEADER_SIZE
  {
  }

  /** Reads on from the read cursor. A reply other than zero is the number of bytes that were read. */
  method ReadFromFile(fp: HiviewFile, fs: FileSystem, data: array<byte>, readLen: uint32) returns (rLen: int)
    requires fp.Tied(fs) && Ordered(fp.header) && readLen <= data.Length && readLen < 0x8000_0000
    modifies fs`handles, fp`header, data
    ensures fp.Tied(fs) && 0 <= rLen <= readLen && Ordered(fp.header)
    ensures old(fp.header).rCursor + rLen <= old(fp.header).wCursor
    ensures fp.header == old(fp.header).(rCursor := old(fp.header.rCursor) + rLen)
    ensures rLen > 0 ==> fp.Attached(fs) && fp.header.rCursor <= |fs.files[fp.path]| &&
                         data[..rLen] == fs.files[fp.path][fp.header.rCursor - rLen..fp.header.rCursor]
    ensures fs.reliable && old(fp.Attached(fs)) && HEADER_SIZE <= old(fp.header).rCursor < 0x8000_0000 &&
            fp.header.wCursor <= |fs.files[fp.path]| ==>
              && fp.Attached(fs) && rLen == ReadLength(old(fp.header), readLen)
              && (fp.State(fs), data[..rLen]) == Read(old(fp.State(fs)), readLen)
  {
    if fp.fhandle < 0 || readLen == 0 {
      return 0;
    }
    var wCursor, rCursor := fp.header.wCursor, fp.header.rCursor;
    if wCursor < readLen {
      return 0;
    }
    rLen := if readLen <= wCursor - rCursor then readLen else wCursor - rCursor;
    var sought := fs.HIVIEW_FileSeek(fp.fhandle, rCursor);
    if sought < 0 {
      return 0;
    }
    var read := fs.HIVIEW_FileRead(fp.fhandle, data, rLen);
    if read == rLen {
      fp.header := fp.header.(rCursor := rCursor + rLen);
    } else {
      rLen := 0;
    }
  }

  /** Where CloseHiviewFile points the destination. Its chain of comparisons goes by inequality, so that the
      last two of its four cases are never reached. */
  function ClosedPath(outPath: string): string {
    if outPath != HIVIEW_FILE_OUT_PATH_LOG then HIVIEW_FILE_OUT_PATH_LOG
    else HIVIEW_FILE_OUT_PATH_UE_EVENT
  }

  /** No destination survives a close: a file that is closed and opened again is moved to another place when
      it is full. From then on the log path and the UE event path take turns. */
  lemma ClosedPathDiffers(outPath: string)
    ensures ClosedPath(outPath) != outPath
    ensures ClosedPath(ClosedPath(ClosedPath(outPath))) == ClosedPath(outPath)
    ensures ClosedPath(outPath) == HIVIEW_FILE_OUT_PATH_UE_EVENT <==> outPath == HIVIEW_FILE_OUT_PATH_LOG
  {
    assert |HIVIEW_FILE_OUT_PATH_LOG| != |HIVIEW_FILE_OUT_PATH_UE_EVENT|;
  }

  /** Closes the file, and changes its destination. Descriptor zero is taken for none and stays open. */
  method CloseHiviewFile(fp: HiviewFile, fs: FileSystem) returns (r: int)
    requires fp.Tied(fs)
    modifies fs`handles, fp`outPath
    ensures fp.Tied(fs) && fs.handles == if fp.fhandle > 0 then old(fs.handles) - {fp.fhandle} else old(fs.handles)
    ensures fp.outPath == if fp.fhandle > 0 then ClosedPath(old(fp.outPath)) else old(fp.outPath)
    ensures fp.fhandle > 0 ==> fp.outPath != old(fp.outPath)
    ensures fs.reliable && old(fp.Attached(fs)) ==> (r == 0 <==> fp.fhandle > 0)
  {
    if fp.fhandle > 0 {
      ClosedPathDiffers(fp.outPath);
      if fp.outPath != HIVIEW_FILE_OUT_PATH_LOG {
        fp.outPath := HIVIEW_FILE_OUT_PATH_LOG;
      } else {
        fp.outPath := HIVIEW_FILE_OUT_PATH_UE_EVENT;
      }
      r := fs.HIVIEW_FileClose(fp.fhandle);
      return r;
    }
    return -1;
  }
}
