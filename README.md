# warcmount: the archive-to-namespace index and its node model

warcmount mounts a WARC web archive as a read-only FUSE file system. At
startup it reads every record of the archive. Each record becomes a file in
one flat root directory, and the file holds its payload in memory. This
project models that index and the nodes served from it, and proves what they
promise.

- **Archive** (`archive.dfy`): Go's `int64` and `uint64` and the
  `uint64(...)` conversion (`ToUint64`, taken modulo 2^64). It also holds the
  record source: a sequence of records, each with a URL, a declared size and
  either its payload bytes or the read error, followed by the error that ends
  the stream (`EOF` or a decoding failure).
- **Names** (`names.dfy`): the replacer that turns a URL into a file name by
  writing `_` for every `/` and `\`.
- **Nodes** (`nodes.dfy`): `File`, `FS` and `Root`, the attributes they
  report (`Attr`), `File.ReadAll`, and `Root.Lookup` and `Root.ReadDirAll`.
  The last two are loops, as in the program. `FindFirst` and `Listing` are
  the reference definitions they are proved against.
- **Index** (`index.dfy`): `newFS` as the method `NewFS`. It pulls records one
  at a time, appends a file for each and counts inodes up from 2. It is
  proved against `FilesOf` and `FirstReadError`. Lemmas relate the built
  namespace to its records.

Nothing in the namespace changes after `newFS` returns. The file system, the
root and the files are therefore Dafny values, not objects. The `FS.Root`
method of the program is the `Root` constructor, which cannot fail.

Two behaviours of the code matter for callers:

- For colliding names, `Lookup` returns the first match, so the earlier
  record wins (`FirstCollidingFileWins`, `LookupFindsFirstRecord`).
- A stream that ends in an error other than `EOF` returns the files built so
  far together with that error. Only a failed payload read returns no file
  system. `main` then exits on any error; that step is outside this model.

## Model

| member | source | states |
|---|---|---|
| `Archive.ToUint64` | warcmount.go:90-91 | `uint64(x)` is `x` when `0 <= x < 2^64`, and `x + 2^64` for a negative `int64`. The result is always congruent to `x` modulo 2^64. |
| `Archive.FirstReadError` | warcmount.go:85-88 | Gives the first record whose payload read fails: every earlier record delivered its bytes. Gives none exactly when every payload can be read. |
| `Names.Sanitise` | warcmount.go:79 | The name has the URL's length. Every `/` and `\` becomes `_`, and every other character stays in its place. The name contains no separator. |
| `Names.SanitiseIdempotent` | warcmount.go:92 | Sanitising a name a second time changes nothing. |
| `Names.SanitiseCollision` | warcmount.go:92 | Two URLs get the same name if and only if they have the same length and match at every position once separators are replaced. |
| `Names.SeparatorsCollide` | warcmount.go:79 | `a/b`, `a\b` and `a_b` all become `a_b`. Names are not disambiguated. |
| `Nodes.FindFirst` | warcmount.go:117-124 | Gives the position of the first file with the name, with no earlier file having it. Gives none exactly when no file has the name. |
| `Nodes.Root.Lookup` | warcmount.go:117-124 | Returns the first file in order whose name equals the argument, or `ENOENT` when there is none. |
| `Nodes.Listing` | warcmount.go:126-135 | Has one entry per file, in file order. Entry i has file i's inode and name and the type regular file. |
| `Nodes.Root.ReadDirAll` | warcmount.go:126-135 | The table the loop fills is exactly `Listing` of the files. |
| `Nodes.Root.Attr` | warcmount.go:111-115 | The root reports inode 1. Its mode is a directory with no other type bit and no flag beyond the permissions. Its permissions are read and search for everyone, with no write bit. |
| `Nodes.File.Attr` | warcmount.go:145-150 | A file reports its own inode and its stored size. Its mode is a regular file: no type bit and no flag beyond the permissions. It is readable by everyone and has no write or execute bit. |
| `Nodes.File.ReadAll` | warcmount.go:152-154 | Returns the stored bytes unchanged. |
| `Nodes.ListedNamesResolve` | warcmount.go:117-135 | Every listed name resolves by lookup, to the listed file or an earlier one. Every name that resolves appears in the listing. |
| `Nodes.FirstCollidingFileWins` | warcmount.go:117-124 | When two files share a name, lookup of that name finds a file no later than the earlier of the two. |
| `Index.FilesOf` | warcmount.go:84-96 | Building from readable records gives one file per record, in order. File k is made from record k with inode `uint64(k+2)`, size `uint64(size)`, the sanitised URL and the payload. |
| `Index.NewFS` | warcmount.go:78-101 | When a payload read fails, returns no file system and the first such failure. Otherwise returns the files of all records in order, plus the stream's terminating error unless it is `EOF`. |
| `Index.InodesFollowArchiveOrder` | warcmount.go:81-95 | With at most 2^64-2 records, file k has inode k+2. Inodes rise strictly with position and never equal the root's inode 1. |
| `Index.NamesAreSingleSegments` | warcmount.go:92 | Every file's name is its record's sanitised URL, has the URL's length and holds no `/` or `\`. |
| `Index.SizeMatchesContent` | warcmount.go:145-154 | When each record delivers exactly its declared size, a file's read returns the record's payload. The size it reports is that payload's length. |
| `Index.LookupFindsFirstRecord` | warcmount.go:117-124 | In a built namespace, lookup of a name finds the first record whose sanitised URL is that name. It finds nothing exactly when no record's URL sanitises to the name. |
| `Index.EmptyArchive` | warcmount.go:84-100 | With no records there is no read error and no file. The listing is empty and no name resolves. |
| `Index.EmptyArchiveBuild` | warcmount.go:84-100 | `NewFS` on an archive with no records returns an empty file system, not a missing one. It reports no error exactly when the stream ends in `EOF`; otherwise it reports the stream's error. |
| `Index.TwoRecordArchive` | warcmount.go:84-135 | `http://a/b` (payload `abcd`) and `http://a/c` (empty) become `http:__a_b` (inode 2, size 4) and `http:__a_c` (inode 3, size 0), listed in that order. `missing` does not resolve. |

## Left out

- `main` (warcmount.go:23-72): argument checking, opening the file, creating the reader, naming, creating and removing the mount directory, mounting and serving. This is process and operating-system plumbing.
- The interrupt handler goroutine that unmounts (warcmount.go:61-66): concurrency and signals.
- The WARC decoder (`NextPayload`, `URL`, `Size`) is a foreign library. It is replaced by a record source given as a value, and the decoder's own read cursor becomes the loop's position.
- Reading a payload (`ioutil.ReadAll`) is modelled only as its outcome: the bytes, or an error. Bytes read before an error are discarded by the program, so they are not modelled.
- `context.Context` parameters, and the `*fuse.Attr` out-parameter and `error` results of methods that always succeed: results are returned values. Only the attribute fields the program sets are modelled: inode, mode and size. The root's size is the zero it is left at.
- URLs and names are sequences of characters, while Go strings are bytes. Replacing `/` and `\` character by character gives the same name as the program's byte-wise replacer for valid UTF-8. A URL that is not valid UTF-8 cannot be represented.
- `fuse.DirentType` is reduced to the one kind the listing reports, a regular file.
- `Root.Lookup` returns the stored `*File` pointer. The model returns the file value, so pointer identity is not captured. Since no file is ever changed, the two cannot be told apart.
- `Index.InodesFollowArchiveOrder`: assumes at most 2^64-2 records. Beyond that, `uint64(idx)` wraps and inodes repeat. The wrapped values themselves are modelled by `ToUint64` in `FilesOf`.
- `Index.SizeMatchesContent`: assumes that the source delivers exactly the declared size of each payload. The program never checks this. Without the assumption, a file reports the declared size, converted by `ToUint64` (`FilesOf`), whatever its content.
- Concurrent queries are not modelled. Every query is a function of an unchanging value, so concurrent queries cannot interfere.
- A lazily re-read payload, and a lookup by inode number: neither exists in this program.
