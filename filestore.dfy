/**
 * The slice of the operating system's file system that the edit prompt touches:
 * `os.Stat`, reading a whole file, `ioutil.WriteFile`, and the temporary file that
 * `filez.WithMustWriteTempFile` creates and removes around a callback.
 */
module FileSystem {
  import opened Wrappers

  newtype Byte = b: int | 0 <= b < 256

  type Bytes = seq<Byte>

  /** Go's `os.FileMode`, a 32-bit word treated as an opaque value. */
  type FileMode = bv32

  /** The permission bits a fresh temporary file is created with (0600). */
  const TempFileMode: FileMode := 0x180

  /** The failures the edit prompt can report. */
  datatype Error =
    | NotExist(path: string)          // the path names no file
    | PermissionDenied(path: string)  // the file may not be read, or may not be written
    | Message(text: string)           // an error raised by an editor or a validation rule

  /**
   * The files on disk by path, with each file's mode and the paths whose reading
   * or writing the operating system refuses.
   */
  class FileStore {
    var files: map<string, Bytes>
    var modes: map<string, FileMode>
    var unreadable: set<string>
    var readOnly: set<string>

    ghost predicate Valid()
      reads this
    {
      && modes.Keys == files.Keys
      && unreadable <= files.Keys
      && readOnly <= files.Keys
    }

    constructor (files: map<string, Bytes>, modes: map<string, FileMode>,
                 unreadable: set<string>, readOnly: set<string>)
      requires modes.Keys == files.Keys && unreadable <= files.Keys && readOnly <= files.Keys
      ensures Valid()
      ensures this.files == files && this.modes == modes
      ensures this.unreadable == unreadable && this.readOnly == readOnly
    {
      this.files, this.modes := files, modes;
      this.unreadable, this.readOnly := unreadable, readOnly;
    }

    /** `os.Stat(path)`, reduced to the mode it reports. */
    method Stat(path: string) returns (r: Result<FileMode, Error>)
      requires Valid()
      ensures r.Success? <==> path in files
      ensures r.Success? ==> r.value == modes[path]
      ensures r.Failure? ==> r.error == NotExist(path)
    {
      if path in files {
        r := Success(modes[path]);
      } else {
        r := Failure(NotExist(path));
      }
    }

    /** `filez.MustReadFile(path)`: the whole contents, or why they cannot be had. */
    method ReadFile(path: string) returns (r: Result<Bytes, Error>)
      requires Valid()
      ensures r.Success? <==> path in files && path !in unreadable
      ensures r.Success? ==> r.value == files[path]
      ensures path !in files ==> r == Failure(NotExist(path))
      ensures path in unreadable ==> r == Failure(PermissionDenied(path))
    {
      if path !in files {
        r := Failure(NotExist(path));
      } else if path in unreadable {
        r := Failure(PermissionDenied(path));
      } else {
        r := Success(files[path]);
      }
    }

    /**
     * `ioutil.WriteFile(path, data, perm)`: replaces the contents in one step. The
     * file is opened for writing with truncation and creation, so `perm` is the
     * mode of a file it creates; an existing file keeps the mode it had.
     */
    method WriteFile(path: string, data: Bytes, perm: FileMode) returns (err: Option<Error>)
      requires Valid()
      modifies this
      ensures Valid()
      ensures unreadable == old(unreadable) && readOnly == old(readOnly)
      ensures err == (if path in old(readOnly) then Some(PermissionDenied(path)) else None)
      ensures err.None? ==> files == old(files)[path := data]
      ensures err.None? ==> modes == if path in old(modes) then old(modes) else old(modes)[path := perm]
      ensures err.Some? ==> files == old(files) && modes == old(modes)
    {
      if path in readOnly {
        err := Some(PermissionDenied(path));
      } else {
        files := files[path := data];
        if path !in modes {
          modes := modes[path := perm];
        }
        err := None;
      }
    }

    /**
     * The acquiring half of `filez.WithMustWriteTempFile`: a new file at the
     * uniquely generated `path`, holding `data`, readable and writable by its owner.
     */
    method CreateTemp(path: string, data: Bytes)
      requires Valid()
      requires path !in files
      modifies this
      ensures Valid()
      ensures files == old(files)[path := data] && modes == old(modes)[path := TempFileMode]
      ensures unreadable == old(unreadable) && readOnly == old(readOnly)
    {
      files := files[path := data];
      modes := modes[path := TempFileMode];
    }

    /** The releasing half of `filez.WithMustWriteTempFile`: `os.Remove(path)`. */
    method Remove(path: string)
      requires Valid()
      modifies this
      ensures Valid()
      ensures files == old(files) - {path} && modes == old(modes) - {path}
      ensures unreadable == old(unreadable) - {path} && readOnly == old(readOnly) - {path}
    {
      files := files - {path};
      modes := modes - {path};
      unreadable := unreadable - {path};
      readOnly := readOnly - {path};
    }
  }
}
