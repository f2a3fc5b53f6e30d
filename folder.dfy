/** A directory of files, updated in place by `write_file` and `os.remove`. */
module Storage {
  import opened Types

  class Folder {
    /** File name (relative to the directory) -> file bytes. */
    var files: map<string, Bytes>

    constructor (initial: map<string, Bytes>)
      ensures files == initial
    {
      files := initial;
    }

    /** `write_file(dir + name, data)`: creates or overwrites one file. */
    method Write(name: string, data: Bytes)
      modifies this
      ensures files == old(files)[name := data]
    {
      files := files[name := data];
    }

    /**
     * `os.remove(dir + name)`: `removed` is false exactly when there was no such file,
     * which is where the source raises.
     */
    method Remove(name: string) returns (removed: bool)
      modifies this
      ensures removed == (name in old(files))
      ensures files == old(files) - {name}
    {
      removed := name in files;
      files := files - {name};
    }
  }
}
