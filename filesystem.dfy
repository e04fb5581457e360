/**
 * The file system as the scripts see it: regular files with their text and modification
 * time, directories, and a clock that stamps every write.
 */
module FileSystems {
  import opened Paths

  /** A regular file: its text and its `st_mtime`, as an integer. */
  datatype FileEntry = FileEntry(content: string, mtime: int)

  /** The regular files and the directories: the state of a `FileSystem`, as a value. */
  datatype Disk = Disk(files: map<Path, FileEntry>, dirs: set<Path>)

  /** `open(p, "w")` succeeds: `p` names no directory and its parent directory exists. */
  predicate CanWrite(dirs: set<Path>, p: Path)
  {
    p != [] && p !in dirs && (|p| == 1 || Parent(p) in dirs)
  }

  /** The files left after removing the tree rooted at `root`. */
  function PruneFiles(files: map<Path, FileEntry>, root: Path): (r: map<Path, FileEntry>)
    ensures forall q :: q in r <==> q in files && !IsPrefix(root, q)
    ensures forall q :: q in r ==> r[q] == files[q]
  {
    map q | q in files && !IsPrefix(root, q) :: files[q]
  }

  /** The directories left after removing the tree rooted at `root`. */
  function PruneDirs(dirs: set<Path>, root: Path): (r: set<Path>)
    ensures forall q :: q in r <==> q in dirs && !IsPrefix(root, q)
  {
    set q | q in dirs && !IsPrefix(root, q)
  }

  /** Where `shutil.copy(src, dst)` writes: into `dst` when it is a directory. */
  function CopyDestination(dirs: set<Path>, src: Path, dst: Path): Path
  {
    if dst in dirs then dst + [Name(src)] else dst
  }

  class FileSystem {
    var files: map<Path, FileEntry>
    var dirs: set<Path>
    /** The modification time every write in this model receives. */
    const clock: int

    /** Nothing is both a file and a directory. */
    ghost predicate Valid()
      reads this
    {
      files.Keys !! dirs
    }

    constructor (files0: map<Path, FileEntry>, dirs0: set<Path>, clock0: int)
      requires files0.Keys !! dirs0
      ensures Valid() && files == files0 && dirs == dirs0 && clock == clock0
    {
      files, dirs, clock := files0, dirs0, clock0;
    }

    /** `p.exists()` */
    predicate Exists(p: Path)
      reads this
    {
      p in files || p in dirs
    }

    /**
     * `p.mkdir(parents=True, exist_ok=True)`: makes `p` and its missing ancestors; it fails,
     * making nothing, when a regular file stands at `p` or at one of its ancestors.
     */
    method MakeDirs(p: Path) returns (ok: bool)
      requires Valid()
      modifies this
      ensures Valid() && files == old(files)
      ensures ok <==> Ancestors(p) !! old(files).Keys
      ensures dirs == if ok then old(dirs) + Ancestors(p) else old(dirs)
    {
      ok := Ancestors(p) !! files.Keys;
      if ok {
        dirs := dirs + Ancestors(p);
      }
    }

    /** `p.write_text(content)`: fails when `p` is a directory or its parent is missing. */
    method WriteText(p: Path, content: string) returns (ok: bool)
      requires Valid()
      modifies this
      ensures Valid() && dirs == old(dirs)
      ensures ok <==> CanWrite(old(dirs), p)
      ensures files == if ok then old(files)[p := FileEntry(content, clock)] else old(files)
    {
      ok := CanWrite(dirs, p);
      if ok {
        files := files[p := FileEntry(content, clock)];
      }
    }

    /** `shutil.rmtree(p)` on a directory: removes it and everything beneath it. */
    method RemoveTree(p: Path)
      requires Valid() && p in dirs
      modifies this
      ensures Valid()
      ensures files == PruneFiles(old(files), p) && dirs == PruneDirs(old(dirs), p)
    {
      files := PruneFiles(files, p);
      dirs := PruneDirs(dirs, p);
    }

    /**
     * `shutil.copy(src, dst)`: copies the text of the file `src`; it fails when `src` is no
     * file, when source and target are the same, or when the target cannot be written.
     */
    method Copy(src: Path, dst: Path) returns (ok: bool)
      requires Valid()
      modifies this
      ensures Valid() && dirs == old(dirs)
      ensures var target := CopyDestination(old(dirs), src, dst);
              && (ok <==> src in old(files) && target != src && CanWrite(old(dirs), target))
              && files == if ok then old(files)[target := FileEntry(old(files)[src].content, clock)]
                          else old(files)
    {
      var target := CopyDestination(dirs, src, dst);
      ok := src in files && target != src && CanWrite(dirs, target);
      if ok {
        files := files[target := FileEntry(files[src].content, clock)];
      }
    }
  }
}
