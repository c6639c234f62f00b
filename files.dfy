/** The part of the operating system's file API that the profile swapper uses,
    over an abstract disk: a finite map from path to content.

    A path is present exactly when it is a key of the map; this is how the
    program reads existence (`!os.IsNotExist(err)` after `os.Stat`), which
    treats every stat error other than "not found" as "exists". Failures other
    than a missing path (permission denied, a file held open by another
    process) are modelled by a fixed set of `locked` paths: opening, creating
    or renaming a locked path fails, and so does removing a locked path that
    exists; removing an absent path succeeds, locked or not. The copy of
    content between two open files never fails here. */
module Files {

  type FilePath = string
  type Bytes = seq<bv8>
  type Disk = map<FilePath, Bytes>

  datatype Error =
    | NotExist(path: FilePath)   // the path is absent: os.IsNotExist holds of the error
    | Denied(path: FilePath)     // the operating system refuses the access

  datatype Outcome = Ok | Fail(error: Error)

  /** What a step of file housekeeping returns: its error, if any, and the disk after it. */
  datatype Effect = Effect(outcome: Outcome, disk: Disk)

  /** Path `q` of disk `after` holds what path `p` of disk `before` held: both
      absent, or both present with equal content. */
  predicate Carries(after: Disk, q: FilePath, before: Disk, p: FilePath) {
    (q in after <==> p in before) && (q in after ==> after[q] == before[p])
  }

  /** Path `p` is the same in both disks. */
  predicate SameAt(after: Disk, before: Disk, p: FilePath) {
    Carries(after, p, before, p)
  }

  /** os.Rename: the source must exist; the destination is replaced if present. */
  function RenameSpec(d: Disk, locked: set<FilePath>, src: FilePath, dst: FilePath): Effect {
    if src !in d then Effect(Fail(NotExist(src)), d)
    else if src in locked then Effect(Fail(Denied(src)), d)
    else if dst in locked then Effect(Fail(Denied(dst)), d)
    else Effect(Ok, (d - {src})[dst := d[src]])
  }

  /** os.RemoveAll: removing an absent path is not an error. */
  function RemoveSpec(d: Disk, locked: set<FilePath>, p: FilePath): Effect {
    if p in d && p in locked then Effect(Fail(Denied(p)), d)
    else Effect(Ok, d - {p})
  }

  /** SimpleCopy: open the source, create (truncate) the destination, copy.
      The destination is truncated before the copy reads the source, so a copy
      of a file onto itself leaves it empty. */
  function CopySpec(d: Disk, locked: set<FilePath>, src: FilePath, dst: FilePath): Effect {
    if src !in d then Effect(Fail(NotExist(src)), d)
    else if src in locked then Effect(Fail(Denied(src)), d)
    else if dst in locked then Effect(Fail(Denied(dst)), d)
    else Effect(Ok, d[dst := if src == dst then [] else d[src]])
  }

  /** The file system the program runs against. */
  class FileSystem {
    var disk: Disk
    const locked: set<FilePath>

    constructor (initial: Disk, refused: set<FilePath>)
      ensures disk == initial && locked == refused
    {
      disk := initial;
      locked := refused;
    }

    /** os.Stat followed by !os.IsNotExist. */
    method Stat(p: FilePath) returns (present: bool)
      ensures present <==> p in disk
    {
      present := p in disk;
    }

    method Rename(src: FilePath, dst: FilePath) returns (r: Outcome)
      modifies this
      ensures Effect(r, disk) == RenameSpec(old(disk), locked, src, dst)
      ensures r == Ok ==> dst in disk && disk[dst] == old(disk)[src]
      ensures r == Ok && src != dst ==> src !in disk
      ensures forall q :: q != src && q != dst ==> SameAt(disk, old(disk), q)
    {
      if src !in disk {
        return Fail(NotExist(src));
      }
      if src in locked {
        return Fail(Denied(src));
      }
      if dst in locked {
        return Fail(Denied(dst));
      }
      disk := (disk - {src})[dst := disk[src]];
      r := Ok;
    }

    method RemoveAll(p: FilePath) returns (r: Outcome)
      modifies this
      ensures Effect(r, disk) == RemoveSpec(old(disk), locked, p)
      ensures r == Ok ==> p !in disk
      ensures forall q :: q != p ==> SameAt(disk, old(disk), q)
    {
      if p in disk && p in locked {
        return Fail(Denied(p));
      }
      disk := disk - {p};
      r := Ok;
    }

    /** os.Open for reading. */
    method Open(p: FilePath) returns (r: Outcome)
      ensures r == if p !in disk then Fail(NotExist(p)) else if p in locked then Fail(Denied(p)) else Ok
    {
      if p !in disk {
        return Fail(NotExist(p));
      }
      r := if p in locked then Fail(Denied(p)) else Ok;
    }

    /** os.Create: creates the file, or truncates it if it exists. */
    method Create(p: FilePath) returns (r: Outcome)
      modifies this
      ensures r == if p in locked then Fail(Denied(p)) else Ok
      ensures disk == if r == Ok then old(disk)[p := []] else old(disk)
    {
      if p in locked {
        return Fail(Denied(p));
      }
      disk := disk[p := []];
      r := Ok;
    }

    /** io.Copy from an open source into an open destination. */
    method CopyContent(src: FilePath, dst: FilePath)
      requires src in disk
      modifies this
      ensures disk == old(disk)[dst := old(disk)[src]]
    {
      disk := disk[dst := disk[src]];
    }
  }

  /** Copies the content of `src` over `dst` (main.go's SimpleCopy). */
  method SimpleCopy(fs: FileSystem, src: FilePath, dst: FilePath) returns (r: Outcome)
    modifies fs
    ensures Effect(r, fs.disk) == CopySpec(old(fs.disk), fs.locked, src, dst)
    ensures r.Fail? ==> fs.disk == old(fs.disk)
    ensures src !in old(fs.disk) ==> r == Fail(NotExist(src))
    ensures r == Ok ==> dst in fs.disk && fs.disk[dst] == (if src == dst then [] else old(fs.disk)[src])
    ensures forall q :: q != dst ==> SameAt(fs.disk, old(fs.disk), q)
  {
    r := fs.Open(src);
    if r.Fail? {
      return;
    }
    r := fs.Create(dst);
    if r.Fail? {
      return;
    }
    fs.CopyContent(src, dst);
  }
}
