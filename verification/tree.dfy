/**
 * The two shapes the scan works with: the directory tree as the file system
 * presents it (input), and the structure `scanDirectory` builds from it
 * (output, consumed by the renderer).
 */
module Tree {
  import opened Optional
  import opened Headers

  /** One directory entry as `readdirSync` and `statSync` report it. */
  datatype Entry =
    | Dir(name: string, entries: seq<Entry>)
    | UnlistableDir(name: string)                      // `readdirSync` fails on it
    | File(name: string, content: Option<string>)      // None: the file cannot be read
    | Other(name: string)                              // neither a directory nor a regular file
  {
    /** `statSync(..).isDirectory()`. */
    predicate IsDirectory()
    {
      Dir? || UnlistableDir?
    }
  }

  /**
   * One element of the scanned structure. `path` lists the names from the
   * scan root down to and including the node itself.
   */
  datatype Node =
    | DirNode(name: string, path: seq<string>, depth: nat, children: seq<Node>)
    | DocNode(name: string, path: seq<string>, depth: nat, headers: seq<Header>)
}
