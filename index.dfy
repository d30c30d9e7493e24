/**
 * Building the namespace from the record source (`newFS`): every record
 * becomes a file named after its sanitised URL, with inodes handed out from 2
 * in archive order, and with its payload held in memory.
 */
module Index {
  import opened Archive
  import opened Names
  import opened Nodes

  /** The inode of the first record; 1 belongs to the root. */
  const FirstInode: int := 2

  /** The largest number of records for which inodes do not wrap around 2^64. */
  const MaxRecords: int := Two64 - FirstInode

  /** The file made from the k-th record (0-based) of the stream. */
  function MakeFile(rec: Record, k: nat): File
    requires rec.payload.Bytes?
  {
    File(ToUint64(FirstInode + k), ToUint64(rec.size as int), Sanitise(rec.url), rec.payload.data)
  }

  /**
   * The files built from the records recs, read from the start of the stream
   * and appended one by one.
   */
  function FilesOf(recs: seq<Record>): (files: seq<File>)
    requires NoReadError(recs)
    ensures |files| == |recs|
    ensures forall k :: 0 <= k < |recs| ==> files[k] == MakeFile(recs[k], k)
  {
    if recs == [] then []
    else FilesOf(recs[..|recs| - 1]) + [MakeFile(recs[|recs| - 1], |recs| - 1)]
  }

  /** Building one more record appends its file. */
  lemma AppendRecord(recs: seq<Record>, n: nat)
    requires n < |recs| && NoReadError(recs[..n]) && recs[n].payload.Bytes?
    ensures NoReadError(recs[..n + 1])
    ensures FilesOf(recs[..n + 1]) == FilesOf(recs[..n]) + [MakeFile(recs[n], n)]
  {
    assert recs[..n + 1][..n] == recs[..n];
  }

  /** A failed read at n after n good records is the first read error. */
  lemma FirstReadErrorAt(recs: seq<Record>, n: nat)
    requires n < |recs| && NoReadError(recs[..n]) && recs[n].payload.ReadFailed?
    ensures FirstReadError(recs) == Some(n)
  {
    forall j | 0 <= j < n ensures recs[j].payload.Bytes? {
      assert recs[..n][j] == recs[j];
    }
    assert !NoReadError(recs);
    var k := FirstReadError(recs).value;
    forall j | 0 <= j < k ensures recs[j].payload.Bytes? {
      assert recs[..k][j] == recs[j];
    }
  }

  /**
   * newFS: pulls records until the source stops. A payload that cannot be
   * read abandons the build with that error and no file system; otherwise
   * the file system holds one file per record, in order, and the error that
   * stopped the stream is returned beside it unless it is EOF.
   */
  method NewFS(src: Source) returns (fs: Option<FS>, err: Option<Error>)
    ensures FirstReadError(src.records).Some? ==>
      fs == None && err == Some(Failure(src.records[FirstReadError(src.records).value].payload.reason))
    ensures FirstReadError(src.records).None? ==>
      fs == Some(FS(FilesOf(src.records))) && err == (if src.end == EOF then None else Some(src.end))
  {
    var files: seq<File> := [];
    var idx: int := FirstInode;
    var pos: nat := 0;
    var step := src.NextPayload(pos);
    while step.Next?
      invariant pos <= |src.records|
      invariant step == src.NextPayload(pos)
      invariant idx == FirstInode + pos
      invariant NoReadError(src.records[..pos])
      invariant files == FilesOf(src.records[..pos])
      decreases |src.records| - pos
    {
      var record := step.record;
      if record.payload.ReadFailed? {
        FirstReadErrorAt(src.records, pos);
        return None, Some(Failure(record.payload.reason));
      }
      files := files + [File(ToUint64(idx), ToUint64(record.size as int), Sanitise(record.url), record.payload.data)];
      AppendRecord(src.records, pos);
      idx := idx + 1;
      pos := pos + 1;
      step := src.NextPayload(pos);
    }
    assert src.records[..pos] == src.records;
    if step.err == EOF {
      err := None;
    } else {
      err := Some(step.err);
    }
    fs := Some(FS(files));
  }

  /**
   * The k-th record becomes the k-th file, with inode k+2, the record's
   * sanitised URL as its name, its declared size and its payload as content.
   * Inodes therefore rise strictly with the position and never equal the
   * root's.
   */
  lemma InodesFollowArchiveOrder(recs: seq<Record>)
    requires NoReadError(recs) && |recs| <= MaxRecords
    ensures forall k :: 0 <= k < |recs| ==> FilesOf(recs)[k].idx as int == k + FirstInode
    ensures forall i, j :: 0 <= i < j < |recs| ==> FilesOf(recs)[i].idx < FilesOf(recs)[j].idx
    ensures forall k :: 0 <= k < |recs| ==> FilesOf(recs)[k].idx != RootInode
  {
    forall k | 0 <= k < |recs| ensures FilesOf(recs)[k].idx as int == k + FirstInode {
      assert FilesOf(recs)[k] == MakeFile(recs[k], k);
    }
  }

  /** Every file name is its record's sanitised URL, so it holds no separator. */
  lemma NamesAreSingleSegments(recs: seq<Record>)
    requires NoReadError(recs)
    ensures forall k :: 0 <= k < |recs| ==>
      FilesOf(recs)[k].name == Sanitise(recs[k].url) &&
      |FilesOf(recs)[k].name| == |recs[k].url|
    ensures forall k, c :: 0 <= k < |recs| && 0 <= c < |FilesOf(recs)[k].name| ==>
      !IsSeparator(FilesOf(recs)[k].name[c])
  {
  }

  /**
   * When every record delivers exactly its declared size, the size a file
   * reports equals the length of the bytes a read returns, and those bytes
   * are the record's payload.
   */
  lemma SizeMatchesContent(recs: seq<Record>)
    requires SizesDeclared(recs)
    ensures NoReadError(recs)
    ensures forall k :: 0 <= k < |recs| ==>
      FilesOf(recs)[k].ReadAll() == recs[k].payload.data &&
      FilesOf(recs)[k].Attr().size as int == |FilesOf(recs)[k].ReadAll()|
  {
    forall k | 0 <= k < |recs|
      ensures FilesOf(recs)[k].ReadAll() == recs[k].payload.data
      ensures FilesOf(recs)[k].Attr().size as int == |FilesOf(recs)[k].ReadAll()|
    {
      assert recs[k].size as int == |recs[k].payload.data|;
      assert 0 <= recs[k].size as int < Two64;
      assert FilesOf(recs)[k] == MakeFile(recs[k], k);
    }
  }

  /**
   * Lookup on a built namespace finds the file of the first record whose
   * sanitised URL is the name, so a colliding later record is shadowed; it
   * finds nothing exactly when no record's URL sanitises to the name.
   */
  lemma LookupFindsFirstRecord(recs: seq<Record>, name: string)
    requires NoReadError(recs)
    ensures FindFirst(FilesOf(recs), name).None? <==>
      forall k :: 0 <= k < |recs| ==> Sanitise(recs[k].url) != name
    ensures FindFirst(FilesOf(recs), name).Some? ==>
      var k := FindFirst(FilesOf(recs), name).value;
      k < |recs| && Sanitise(recs[k].url) == name &&
      forall j :: 0 <= j < k ==> Sanitise(recs[j].url) != name
  {
    var files := FilesOf(recs);
    assert forall k :: 0 <= k < |recs| ==> files[k].name == Sanitise(recs[k].url);
  }

  /**
   * No records: no read error, no files, an empty listing, and no name
   * that resolves.
   */
  lemma EmptyArchive(name: string)
    ensures FirstReadError([]).None?
    ensures FilesOf([]) == []
    ensures Listing(FilesOf([])) == [] && FindFirst(FilesOf([]), name).None?
  {
  }

  /**
   * Building from an archive with no records gives an empty file system, not
   * a missing one; there is no error exactly when the stream ends in EOF.
   */
  method EmptyArchiveBuild(end: Error) returns (fs: Option<FS>, err: Option<Error>)
    ensures fs == Some(FS([]))
    ensures err.None? <==> end == EOF
    ensures err.Some? ==> err.value == end
  {
    EmptyArchive("");
    fs, err := NewFS(Source([], end));
  }

  /** The name of a URL that has a separator exactly where name has the substitute. */
  lemma SanitiseUrl(url: string, name: string)
    requires |url| == |name|
    requires forall i :: 0 <= i < |url| ==>
      if IsSeparator(url[i]) then name[i] == Substitute else name[i] == url[i]
    ensures Sanitise(url) == name
  {
  }

  /** Two good records are built into their two files, in order. */
  lemma BuildTwo(r0: Record, r1: Record)
    requires r0.payload.Bytes? && r1.payload.Bytes?
    ensures NoReadError([r0, r1])
    ensures FilesOf([r0, r1]) == [MakeFile(r0, 0), MakeFile(r1, 1)]
  {
    assert FilesOf([r0, r1])[0] == MakeFile(r0, 0);
  }

  /** The first record of the two-record archive below, and its file. */
  lemma FirstExampleFile()
    ensures MakeFile(Record("http://a/b", 4, Bytes([0x61, 0x62, 0x63, 0x64])), 0)
         == File(2, 4, "http:__a_b", [0x61, 0x62, 0x63, 0x64])
  {
    SanitiseUrl("http://a/b", "http:__a_b");
  }

  /** The second record of the two-record archive below, and its file. */
  lemma SecondExampleFile()
    ensures MakeFile(Record("http://a/c", 0, Bytes([])), 1) == File(3, 0, "http:__a_c", [])
  {
    SanitiseUrl("http://a/c", "http:__a_c");
  }

  /** The namespace of the two-record archive below: its listing and two lookups. */
  lemma ExampleQueries(f0: File, f1: File)
    requires f0 == File(2, 4, "http:__a_b", [0x61, 0x62, 0x63, 0x64])
    requires f1 == File(3, 0, "http:__a_c", [])
    ensures Listing([f0, f1]) == [Dirent(2, "http:__a_b", DT_File), Dirent(3, "http:__a_c", DT_File)]
    ensures FindFirst([f0, f1], "missing").None?
    ensures FindFirst([f0, f1], "http:__a_c") == Some(1)
  {
    assert f0.name != "missing" && f1.name != "missing";
    assert f0.name != "http:__a_c";
  }

  /**
   * Two records, http://a/b with payload "abcd" and http://a/c with an empty
   * payload, give http:__a_b (inode 2, size 4) and http:__a_c (inode 3,
   * size 0), listed in that order; "missing" does not resolve.
   */
  lemma TwoRecordArchive(r0: Record, r1: Record)
    requires r0 == Record("http://a/b", 4, Bytes([0x61, 0x62, 0x63, 0x64]))
    requires r1 == Record("http://a/c", 0, Bytes([]))
    ensures NoReadError([r0, r1])
    ensures FilesOf([r0, r1]) == [File(2, 4, "http:__a_b", [0x61, 0x62, 0x63, 0x64]), File(3, 0, "http:__a_c", [])]
    ensures Listing(FilesOf([r0, r1])) == [Dirent(2, "http:__a_b", DT_File), Dirent(3, "http:__a_c", DT_File)]
    ensures FindFirst(FilesOf([r0, r1]), "missing").None?
    ensures FindFirst(FilesOf([r0, r1]), "http:__a_c") == Some(1)
  {
    BuildTwo(r0, r1);
    FirstExampleFile();
    SecondExampleFile();
    ExampleQueries(FilesOf([r0, r1])[0], FilesOf([r0, r1])[1]);
  }
}
