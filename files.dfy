/** The filesystem as the server sees it through stat, opendir/readdir and
    libmagic: a map from path text to what stat finds there. A path missing
    from the map is one stat fails on. */
module Files {

  /** One readdir entry: its name and whether its d_type is DT_DIR. */
  datatype Entry = Entry(name: string, isDir: bool)

  /** A regular file with its bytes and the MIME text magic_file gives for it
      (empty when libmagic has no answer), or a directory with the entries
      readdir returns, in order, "." and ".." included. `readable` says
      whether fopen (for a file) or opendir (for a directory) succeeds. */
  datatype Node =
    | File(content: string, mime: string, readable: bool)
    | Dir(entries: seq<Entry>, readable: bool)

  type FileSystem = map<string, Node>

  /** file_exists: stat succeeds and S_ISREG holds. */
  predicate FileExists(fs: FileSystem, path: string)
    ensures FileExists(fs, path) ==> path in fs && !fs[path].Dir?
  {
    path in fs && fs[path].File?
  }

  /** dir_exists: stat succeeds and S_ISDIR holds. */
  predicate DirExists(fs: FileSystem, path: string)
    ensures DirExists(fs, path) ==> path in fs && !fs[path].File?
  {
    path in fs && fs[path].Dir?
  }

  /** filepath.compare(filepath.length()-1, 1, "/") == 0. */
  predicate EndsWithSlash(s: string)
  {
    |s| > 0 && s[|s| - 1] == '/'
  }

  /** The condition of check_redirect: a directory named without the final '/'. */
  predicate NeedsRedirect(fs: FileSystem, filepath: string)
  {
    !EndsWithSlash(filepath) && DirExists(fs, filepath)
  }

  /** check_redirect: on a directory named without the final '/', the
      redirect path becomes the request path plus '/'; otherwise it stays
      empty. The comparison on the last character needs a non-empty path. */
  method CheckRedirect(fs: FileSystem, filepath: string, path: string) returns (redirectPath: string)
    requires filepath != []
    ensures redirectPath != [] <==> NeedsRedirect(fs, filepath)
    ensures redirectPath != [] ==> redirectPath == path + "/"
  {
    redirectPath := "";
    var isDir := DirExists(fs, filepath);
    if filepath[|filepath| - 1] != '/' && isDir {
      redirectPath := path;
      redirectPath := redirectPath + "/";
    }
  }
}
