/** The part of the filesystem that entry discovery (server.js:34-59) sees:
    a tree of directory entries as `fs.readdirSync(dir, { withFileTypes:
    true })` lists them, with the failures of `readdirSync` and
    `readFileSync` made explicit. */
module FileTree {
  import opened Options

  /** One directory entry. `File.content` is `None` when reading the file
      fails; `Dir.entries` is `None` when listing the directory fails;
      `Other` is an entry that is neither a regular file nor a directory
      (a symbolic link, a socket, ...), for which `isFile()` and
      `isDirectory()` are both false. */
  datatype Node =
    | File(name: string, content: Option<string>)
    | Dir(name: string, entries: Option<seq<Node>>)
    | Other(name: string)
}
