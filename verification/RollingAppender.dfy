/** The rolling file appender (RollingFileAppender.h), used with the CSV formatter. */
module RollingAppender {
  import opened Text
  import opened Files
  import opened FileNames
  import opened CsvFormatter
  import opened Utf8Converter

  // ---------- the appender as a value ----------

  /** What the constructor fixes: the names of files 0..last, the size limit and the header. */
  datatype Config = Config(names: seq<string>, maxSize: int, header: string, overwrites: bool) {
    ghost predicate Valid()
    {
      |names| >= 1 && Distinct(names) && 0 < |header| <= maxSize
    }

    function Last(): int
    {
      |names| - 1
    }
  }

  const MIN_FILE_SIZE: int := 1000

  function Max(a: int, b: int): int
  {
    if a < b then b else a
  }

  /** The constructor's limits: at least 1000 bytes a file, at least file 0. */
  function Configured(fileName: string, maxFileSize: nat, maxFiles: int, overwrites: bool): (cfg: Config)
    ensures cfg.Valid() && cfg.overwrites == overwrites
    ensures cfg.header == FILE_HEADER && |cfg.names| == if maxFiles < 1 then 1 else maxFiles
    ensures cfg.maxSize >= 1000 && (if maxFileSize >= 1000 then cfg.maxSize == maxFileSize else cfg.maxSize == 1000)
  {
    var (noExt, ext) := SplitFileName(fileName);
    Config(Family(noExt, ext, Max(maxFiles - 1, 0)), Max(maxFileSize, MIN_FILE_SIZE), FILE_HEADER, overwrites)
  }

  datatype State = State(disk: Disk, handle: Option<string>, size: int, firstWrite: bool)

  /**
   * What the system answers during one write: to open, to the header, to the record; and the numbers
   * of the files it refuses to rename or, for the last one, to remove.
   */
  datatype Env = Env(opens: bool, header: Io, record: Io, refused: set<int>)

  /** Every call succeeds in full. */
  const SUCCESS: Env := Env(true, Full, Full, {})

  /** A write through the handle, counted in the size. */
  function Put(s: State, data: string, io: Io): State
  {
    if s.handle.None? then s
    else
      var n := Accepted(io, data);
      s.(disk := Appended(s.disk, s.handle.value, data[..n]), size := s.size + n)
  }

  function Opened(cfg: Config, s: State, opens: bool): State
    requires cfg.Valid()
  {
    var name := cfg.names[0];
    if opens then
      var disk := Created(s.disk, name);
      s.(disk := disk, handle := Some(name), size := |disk[name]|)
    else s.(handle := None, size := -1)
  }

  function OpenLogFile(cfg: Config, s: State, env: Env): State
    requires cfg.Valid()
  {
    var o := Opened(cfg, s, env.opens);
    if o.size == 0 then Put(o, cfg.header, env.header) else o
  }

  /** The removal of the last file. */
  function Removed(cfg: Config, disk: Disk, refused: set<int>): Disk
    requires cfg.Valid()
  {
    if cfg.Last() in refused then disk else Unlinked(disk, cfg.names[cfg.Last()])
  }

  /** The rename of one file to the next number. */
  function Moved(cfg: Config, disk: Disk, fileNumber: int, refused: set<int>): Disk
    requires cfg.Valid() && 0 <= fileNumber < cfg.Last()
  {
    if fileNumber in refused then disk
    else Renamed(disk, cfg.names[fileNumber], cfg.names[fileNumber + 1], cfg.overwrites)
  }

  /** The renames of one roll, from file `from` down to file 0. */
  function Shifted(cfg: Config, disk: Disk, from: int, refused: set<int>): Disk
    requires cfg.Valid() && -1 <= from < cfg.Last()
    decreases from + 1
  {
    if from < 0 then disk else Shifted(cfg, Moved(cfg, disk, from, refused), from - 1, refused)
  }

  /** The state in which a roll opens file 0. */
  function AfterShift(cfg: Config, s: State, refused: set<int>): State
    requires cfg.Valid() && cfg.Last() > 0
  {
    s.(handle := None, disk := Shifted(cfg, Removed(cfg, s.disk, refused), cfg.Last() - 1, refused))
  }

  function RollLogFiles(cfg: Config, s: State, env: Env): State
    requires cfg.Valid() && cfg.Last() > 0
  {
    OpenLogFile(cfg, AfterShift(cfg, s, env.refused), env)
  }

  predicate MustRoll(cfg: Config, s: State)
  {
    !s.firstWrite && cfg.Last() > 0 && s.size > cfg.maxSize && s.size != -1
  }

  function Prepared(cfg: Config, s: State, env: Env): State
    requires cfg.Valid()
  {
    if s.firstWrite then OpenLogFile(cfg, s, env).(firstWrite := false)
    else if MustRoll(cfg, s) then RollLogFiles(cfg, s, env)
    else s
  }

  function Written(cfg: Config, s: State, data: string, env: Env): State
    requires cfg.Valid()
  {
    Put(Prepared(cfg, s, env), data, env.record)
  }

  // ---------- the appender as an object ----------

  class RollingFileAppender {
    const file: File
    var fileSize: int
    const maxFileSize: int
    const lastFileNumber: int
    const fileExt: string
    const fileNameNoExt: string
    var firstWrite: bool

    ghost predicate Valid()
    {
      lastFileNumber >= 0 && |FILE_HEADER| <= maxFileSize
    }

    ghost function Cfg(): (cfg: Config)
      requires Valid()
      ensures cfg.Valid() && cfg.Last() == lastFileNumber
    {
      Config(Family(fileNameNoExt, fileExt, lastFileNumber), maxFileSize, FILE_HEADER, file.fs.overwrites)
    }

    ghost function Now(): State
      reads this, file, file.fs
    {
      State(file.fs.files, file.handle, fileSize, firstWrite)
    }

    constructor (fileName: string, maxFileSize: nat, maxFiles: int, fs: FileSystem)
      ensures Valid() && Cfg() == Configured(fileName, maxFileSize, maxFiles, fs.overwrites)
      ensures file.fs == fs && fresh(file)
      ensures Now() == State(fs.files, None, 0, true)
    {
      this.file := new File(fs);
      this.fileSize := 0;
      this.maxFileSize := Max(maxFileSize, MIN_FILE_SIZE);
      this.lastFileNumber := Max(maxFiles - 1, 0);
      this.firstWrite := true;
      var parts := SplitFileName(fileName);
      this.fileNameNoExt := parts.0;
      this.fileExt := parts.1;
    }

    /** Writes to the file and counts what it took. */
    method WriteCounted(data: string, io: Io)
      modifies this, file.fs
      ensures Now() == Put(old(Now()), data, io)
    {
      ghost var before := file.fs.files;
      var bytesWritten := file.Write(data, io);
      if bytesWritten > 0 {
        fileSize := fileSize + bytesWritten;
      } else if file.handle.Some? {
        NothingAccepted(before, file.handle.value, data);
      }
    }

    method OpenLog(env: Env)
      requires Valid()
      modifies this, file, file.fs
      ensures Now() == OpenLogFile(Cfg(), old(Now()), env)
    {
      var fileName := BuildFileName(fileNameNoExt, fileExt, 0);
      assert fileName == Cfg().names[0];
      fileSize := file.Open(fileName, env.opens);
      if 0 == fileSize {
        WriteCounted(FILE_HEADER, env.header);
      }
    }

    method Roll(env: Env)
      requires Valid() && lastFileNumber > 0
      modifies this, file, file.fs
      ensures Now() == RollLogFiles(Cfg(), old(Now()), env)
    {
      ghost var before := Now();
      file.Close();
      var lastFileName := BuildFileName(fileNameNoExt, fileExt, lastFileNumber);
      file.fs.Unlink(lastFileName, lastFileNumber in env.refused);
      ghost var unlinked := file.fs.files;
      var fileNumber := lastFileNumber - 1;
      while fileNumber >= 0
        invariant -1 <= fileNumber < lastFileNumber
        invariant Now() == before.(handle := None, disk := file.fs.files)
        invariant Shifted(Cfg(), file.fs.files, fileNumber, env.refused)
                  == Shifted(Cfg(), unlinked, lastFileNumber - 1, env.refused)
      {
        var currentFileName := BuildFileName(fileNameNoExt, fileExt, fileNumber);
        var nextFileName := BuildFileName(fileNameNoExt, fileExt, fileNumber + 1);
        file.fs.Rename(currentFileName, nextFileName, fileNumber in env.refused);
        fileNumber := fileNumber - 1;
      }
      OpenLog(env);
    }

    /** `write`, inside the mutex. */
    method Write(record: Record, env: Env)
      requires Valid()
      modifies this, file, file.fs
      ensures Now() == Written(Cfg(), old(Now()), RowText(Fields(record)), env)
    {
      if firstWrite {
        OpenLog(env);
        firstWrite := false;
      } else if lastFileNumber > 0 && fileSize > maxFileSize && -1 != fileSize {
        Roll(env);
      }
      var row := Format(record);
      WriteCounted(row, env.record);
    }
  }

  /** A call that takes no byte leaves the file as it is. */
  lemma NothingAccepted(disk: Disk, name: string, data: string)
    ensures Appended(disk, name, data[..0]) == disk
  {
    assert data[..0] == "";
    assert name in disk ==> disk[name] + "" == disk[name];
  }
}
