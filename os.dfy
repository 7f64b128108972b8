/** The system calls the cleaner makes, as operations on one mutable file tree. */
module Os {
  import opened Paths
  import opened FileTree

  class FileSystem {
    /** The whole tree, from "/". */
    var root: Node
    /** The working directory relative paths are resolved against. */
    const cwd: seq<Name>

    ghost predicate Valid()
      reads this
    {
      root.Dir? && WellFormed(root)
    }

    constructor (root: Node, cwd: seq<Name>)
      requires root.Dir? && WellFormed(root)
      ensures Valid() && this.root == root && this.cwd == cwd
    {
      this.root := root;
      this.cwd := cwd;
    }

    /** The components a pathlib path stands for. */
    function Absolute(p: PathRef): seq<Name> {
      Locate(cwd, p)
    }

    /** Path.exists() */
    function Exists(p: seq<Name>): bool
      reads this
    {
      ExistsIn(root, p)
    }

    /** Path.is_file() */
    function IsFile(p: seq<Name>): bool
      reads this
    {
      Resolve(root, p).Found? && Resolve(root, p).node.File?
    }

    /** Path.is_dir() */
    function IsDir(p: seq<Name>): bool
      reads this
    {
      Resolve(root, p).Found? && Resolve(root, p).node.Dir?
    }

    /** Path.stat().st_size, taken only of regular files. */
    function Stat(p: seq<Name>): nat
      reads this
      requires IsFile(p)
    {
      Resolve(root, p).node.size
    }

    /** Path.iterdir(): the names in listing order, or the error os.listdir raises. */
    function IterDir(p: seq<Name>): Result<seq<Name>>
      reads this
    {
      match Resolve(root, p)
      case Found(Dir(es, _)) => Ok(NamesOf(es))
      case Found(File(_)) => Err(NotADirectory)
      case Found(Dangling) => Err(NotFound)
      case Missing => Err(NotFound)
      case NotADir => Err(NotADirectory)
    }

    /** Path.unlink(missing_ok): removes a non-directory entry from a writable directory. */
    method Unlink(p: seq<Name>, missingOk: bool) returns (r: Result<()>)
      requires Valid()
      modifies this
      ensures Valid()
      ensures match Resolve(old(root), p)
        case Found(Dir(_, _)) => r == Err(IsADirectory) && root == old(root)
        case Found(_) =>
          if ParentWritable(old(root), p) then r == Ok(()) && root == Removed(old(root), p)
          else r == Err(PermissionDenied) && root == old(root)
        case Missing => r == (if missingOk then Ok(()) else Err(NotFound)) && root == old(root)
        case NotADir => r == Err(NotADirectory) && root == old(root)
    {
      match Resolve(root, p)
      case Found(Dir(_, _)) => r := Err(IsADirectory);
      case Found(_) =>
        if ParentWritable(root, p) {
          RemovedWellFormed(root, p);
          root := Removed(root, p);
          r := Ok(());
        } else {
          r := Err(PermissionDenied);
        }
      case Missing => r := if missingOk then Ok(()) else Err(NotFound);
      case NotADir => r := Err(NotADirectory);
    }

    /**
     * shutil.rmtree(p, ignore_errors=True): a directory under a writable parent
     * goes away with everything below it; in every other case the errors are
     * swallowed and nothing changes.
     */
    method RmTree(p: seq<Name>)
      requires Valid()
      modifies this
      ensures Valid()
      ensures root ==
        if Resolve(old(root), p).Found? && Resolve(old(root), p).node.Dir? && ParentWritable(old(root), p)
        then Removed(old(root), p) else old(root)
    {
      if IsDir(p) && ParentWritable(root, p) {
        RemovedWellFormed(root, p);
        root := Removed(root, p);
      }
    }
  }
}
