/**
 * The read-only node model warcmount serves: one root directory holding every
 * file of the archive, and one file node per record.
 *
 * Nothing here is changed after the namespace is built, so the file system,
 * its root and its files are values. What the FUSE layer receives through an
 * out-parameter (`*fuse.Attr`) or a returned error is here a returned value.
 */
module Nodes {
  import opened Archive

  /** os.FileMode: permission bits in the low nine bits, the type in the high bits. */
  type FileMode = bv32

  const ModeDir: FileMode := 0x8000_0000
  const ModePerm: FileMode := 0x1FF  // 0777
  const ReadBits: FileMode := 0x124  // 0444: read for owner, group and others
  const WriteBits: FileMode := 0x92  // 0222
  const ExecBits: FileMode := 0x49   // 0111
  const Perm0555: FileMode := 0x16D  // read and search for all

  /**
   * The type bits: ModeDir, ModeSymlink, ModeDevice, ModeNamedPipe,
   * ModeSocket, ModeCharDevice and ModeIrregular. None set is a regular file.
   */
  const ModeType: FileMode := 0x8F28_0000

  /** The inode of the root directory; no file ever has it. */
  const RootInode: uint64 := 1

  predicate IsDir(m: FileMode)
  {
    m & ModeDir != 0
  }

  predicate IsRegular(m: FileMode)
  {
    m & ModeType == 0
  }

  function Perm(m: FileMode): FileMode
  {
    m & ModePerm
  }

  /** The part of fuse.Attr warcmount fills in. */
  datatype Attributes = Attributes(inode: uint64, mode: FileMode, size: uint64)

  /** fuse.DirentType, restricted to the one kind the listing reports. */
  datatype DirentType = DT_File

  /** One entry of a directory listing. */
  datatype Dirent = Dirent(inode: uint64, name: string, kind: DirentType)

  /** The error a failed lookup reports: no such entry. */
  datatype Errno = ENOENT

  /** What Root.Lookup answers: the file node, or an errno. */
  datatype LookupResult = Found(file: File) | Failed(errno: Errno)

  /** A file node: its inode, its recorded size, its name and its bytes. */
  datatype File = File(idx: uint64, sz: uint64, name: string, content: seq<byte>) {

    /**
     * The attributes reported for the file: its own inode and recorded size;
     * a regular file with no other mode flag; readable by all and neither
     * writable nor executable.
     */
    function Attr(): (a: Attributes)
      ensures a.inode == idx && a.size == sz
      ensures IsRegular(a.mode) && !IsDir(a.mode)
      ensures a.mode & !ModePerm == 0
      ensures Perm(a.mode) == ReadBits
      ensures a.mode & (WriteBits | ExecBits) == 0
    {
      Attributes(idx, ReadBits, sz)
    }

    /** The bytes served on a read of the whole file: the stored bytes, unchanged. */
    function ReadAll(): (bytes: seq<byte>)
      ensures bytes == content
    {
      content
    }
  }

  /** The namespace: the files in the order they were built. */
  datatype FS = FS(files: seq<File>)

  /** The listing entry of a file: its inode and name, of kind regular file. */
  function DirentOf(f: File): Dirent
  {
    Dirent(f.idx, f.name, DT_File)
  }

  /**
   * The listing of a sequence of files, one entry per file, in order.
   */
  function Listing(files: seq<File>): (dirs: seq<Dirent>)
    ensures |dirs| == |files|
    ensures forall i :: 0 <= i < |files| ==> dirs[i] == DirentOf(files[i])
  {
    if files == [] then [] else [DirentOf(files[0])] + Listing(files[1..])
  }

  /**
   * The position of the first file named name, if any: the reference
   * definition of a lookup by linear first-match search.
   */
  function FindFirst(files: seq<File>, name: string): (r: Option<nat>)
    ensures r.Some? ==> r.value < |files| && files[r.value].name == name
    ensures r.Some? ==> forall j :: 0 <= j < r.value ==> files[j].name != name
    ensures r.None? <==> forall j :: 0 <= j < |files| ==> files[j].name != name
  {
    if files == [] then None
    else if files[0].name == name then Some(0)
    else
      match FindFirst(files[1..], name)
      case None => None
      case Some(k) => Some(k + 1)
  }

  /** The root directory node; `FS.Root` in the program is this constructor. */
  datatype Root = Root(fs: FS) {

    /**
     * The attributes reported for the root: inode 1, a directory and no other
     * type or mode flag, readable and searchable by all, writable by none.
     */
    function Attr(): (a: Attributes)
      ensures a.inode == RootInode
      ensures IsDir(a.mode) && a.mode & ModeType == ModeDir
      ensures a.mode & !(ModeDir | ModePerm) == 0
      ensures Perm(a.mode) == ReadBits | ExecBits
      ensures a.mode & WriteBits == 0
    {
      Attributes(RootInode, ModeDir | Perm0555, 0)
    }

    /** Resolves a name by scanning the files in order and stopping at the first match. */
    method Lookup(name: string) returns (res: LookupResult)
      ensures FindFirst(fs.files, name).Some? ==> res == Found(fs.files[FindFirst(fs.files, name).value])
      ensures FindFirst(fs.files, name).None? ==> res == Failed(ENOENT)
    {
      var i := 0;
      while i < |fs.files|
        invariant 0 <= i <= |fs.files|
        invariant forall j :: 0 <= j < i ==> fs.files[j].name != name
      {
        if fs.files[i].name == name {
          return Found(fs.files[i]);
        }
        i := i + 1;
      }
      return Failed(ENOENT);
    }

    /** Lists the directory by filling a table with one entry per file, in order. */
    method ReadDirAll() returns (dirs: seq<Dirent>)
      ensures dirs == Listing(fs.files)
    {
      var table := new Dirent[|fs.files|];
      for i := 0 to |fs.files|
        invariant forall k :: 0 <= k < i ==> table[k] == DirentOf(fs.files[k])
      {
        table[i] := Dirent(fs.files[i].idx, fs.files[i].name, DT_File);
      }
      dirs := table[..];
    }
  }

  /** Some entry of the listing of files carries name. */
  ghost predicate Listed(files: seq<File>, name: string)
  {
    exists i :: 0 <= i < |files| && Listing(files)[i].name == name
  }

  /**
   * Listing and lookup agree: every listed name resolves, to a file at or
   * before the listed position, and every name that resolves is listed.
   */
  lemma ListedNamesResolve(files: seq<File>)
    ensures forall i :: 0 <= i < |files| ==>
      FindFirst(files, Listing(files)[i].name).Some? &&
      FindFirst(files, Listing(files)[i].name).value <= i
    ensures forall name :: FindFirst(files, name).Some? ==> Listed(files, name)
  {
    forall name | FindFirst(files, name).Some?
      ensures Listed(files, name)
    {
      var i := FindFirst(files, name).value;
      assert Listing(files)[i].name == name;
    }
  }

  /**
   * Lookup is a function of the name and the file sequence; with names
   * colliding, the first file in order is the one found.
   */
  lemma FirstCollidingFileWins(files: seq<File>, i: nat, j: nat)
    requires i < j < |files| && files[i].name == files[j].name
    ensures FindFirst(files, files[j].name).Some?
    ensures FindFirst(files, files[j].name).value <= i < j
  {
  }
}
