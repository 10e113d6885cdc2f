/** Files and file handles (the `File` class of Util.h), over a map from names to contents. */
module Files {
  import opened Text

  type Disk = map<string, string>

  /** What a call of the operating system's write does: fails, takes at most `n` bytes, or takes all. */
  datatype Io = Failed | Short(n: nat) | Full

  function Accepted(io: Io, data: string): (n: nat)
    ensures n <= |data|
  {
    match io
    case Failed => 0
    case Short(n) => if n < |data| then n else |data|
    case Full => |data|
  }

  /** Any number of bytes may be taken, none of them, and all. */
  lemma AnyPrefixMayBeTaken(data: string, n: nat)
    requires n <= |data|
    ensures Accepted(Short(n), data) == n && Accepted(Failed, data) == 0 && Accepted(Full, data) == |data|
  {
  }

  function Created(disk: Disk, name: string): Disk
  {
    if name in disk then disk else disk[name := ""]
  }

  function Appended(disk: Disk, name: string, text: string): Disk
  {
    if name in disk then disk[name := disk[name] + text] else disk
  }

  /** Removing a missing file does nothing. */
  function Unlinked(disk: Disk, name: string): Disk
  {
    disk - {name}
  }

  /** Renaming a missing file does nothing; an existing target is replaced or makes the call fail. */
  function Renamed(disk: Disk, from: string, to: string, overwrites: bool): Disk
  {
    if from !in disk || (to in disk && !overwrites) then disk
    else (disk - {from})[to := disk[from]]
  }

  class FileSystem {
    var files: Disk
    /** True where rename overwrites an existing target (POSIX), false where it fails (MoveFile). */
    const overwrites: bool

    constructor (files: Disk, overwrites: bool)
      ensures this.files == files && this.overwrites == overwrites
    {
      this.files := files;
      this.overwrites := overwrites;
    }

    /** `refused` is the system's answer. */
    method Unlink(name: string, refused: bool)
      modifies this
      ensures files == if refused then old(files) else Unlinked(old(files), name)
    {
      if !refused {
        files := files - {name};
      }
    }

    method Rename(from: string, to: string, refused: bool)
      modifies this
      ensures files == if refused then old(files) else Renamed(old(files), from, to, overwrites)
    {
      if !refused && from in files && (to !in files || overwrites) {
        var content := files[from];
        files := files - {from};
        files := files[to := content];
      }
    }
  }

  /** An open or closed handle; it knows its file by name. */
  class File {
    const fs: FileSystem
    var handle: Option<string>

    constructor (fs: FileSystem)
      ensures this.fs == fs && handle == None
    {
      this.fs := fs;
      this.handle := None;
    }

    /** Opens or creates, and seeks to the end: the size, or -1. `opens` is the system's answer. */
    method Open(name: string, opens: bool) returns (size: int)
      modifies this, fs
      ensures handle == if opens then Some(name) else None
      ensures fs.files == if opens then Created(old(fs.files), name) else old(fs.files)
      ensures size == if opens then |Created(old(fs.files), name)[name]| else -1
    {
      if opens {
        handle := Some(name);
        if name !in fs.files {
          fs.files := fs.files[name := ""];
        }
        size := |fs.files[name]|;
      } else {
        handle := None;
        size := -1;
      }
    }

    /** The number of bytes written, or -1 for an error or a closed handle. */
    method Write(data: string, io: Io) returns (written: int)
      modifies fs
      ensures handle.None? || io.Failed? ==> written == -1 && fs.files == old(fs.files)
      ensures handle.Some? && !io.Failed? ==>
        && written == Accepted(io, data)
        && fs.files == Appended(old(fs.files), handle.value, data[..Accepted(io, data)])
    {
      if handle.None? || io.Failed? {
        return -1;
      }
      written := Accepted(io, data);
      if handle.value in fs.files {
        fs.files := fs.files[handle.value := fs.files[handle.value] + data[..written]];
      }
    }

    method Close()
      modifies this
      ensures handle == None
    {
      if handle.Some? {
        handle := None;
      }
    }
  }
}
