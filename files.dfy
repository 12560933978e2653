/** The files on disk, as a set of paths, and the two operations that may fail on them. */
module Files {
  import opened Paths

  class FileSystem {
    var files: set<Path>

    constructor (files: set<Path>)
      ensures this.files == files
    {
      this.files := files;
    }

    /**
     * `os.remove(p)`: fails on a missing path, and may fail for reasons not
     * modelled (permissions, a file in use); on success only `p` is gone.
     */
    method Remove(p: Path) returns (ok: bool)
      modifies this
      ensures ok ==> p in old(files) && files == old(files) - {p}
      ensures !ok ==> files == old(files)
    {
      ok :| p in files || !ok;
      if ok {
        files := files - {p};
      }
    }

    /**
     * `os.rename(src, dst)`: fails on a missing source, and may fail for reasons
     * not modelled (permissions, an existing target on some platforms); on
     * success `src` is gone and `dst` exists, and no other path changes.
     */
    method Rename(src: Path, dst: Path) returns (ok: bool)
      modifies this
      ensures ok ==> src in old(files) && files == old(files) - {src} + {dst}
      ensures !ok ==> files == old(files)
    {
      ok :| src in files || !ok;
      if ok {
        files := files - {src} + {dst};
      }
    }
  }
}
