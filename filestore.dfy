/** The file system the tool reads and writes, as a mutable map from path to text content. */
module FileStore {

  class FileSystem {
    /** The regular files that exist, each with its (already decoded) text content. */
    var files: map<string, string>

    constructor (initial: map<string, string>)
      ensures files == initial
    {
      files := initial;
    }

    /** Opening `path` for writing truncates it and stores `content`; a missing file is created. */
    method Write(path: string, content: string)
      modifies this
      ensures files == old(files)[path := content]
    {
      files := files[path := content];
    }

    /** A byte-for-byte copy of `src` to `dst`, replacing whatever `dst` held. */
    method Copy(src: string, dst: string)
      requires src in files
      modifies this
      ensures files == old(files)[dst := old(files)[src]]
    {
      files := files[dst := files[src]];
    }
  }
}
