# A verified model of the LAPPS `AbstractDataSource`

`AbstractDataSource` is a read-only service placed in front of a key-to-file
index. It answers requests that arrive as tagged `Data` objects:

- A GET request returns the text of the document stored under a key. The
  response is tagged with a content type that the file's extension decides.
- A LIST request returns an error, because listing is not implemented yet.
- Every other request type is refused.
- An exception stored in `savedException` makes every request fail with
  that exception's message.

A protected helper, `doQuery`, selects the keys whose file path contains a
query string. It joins them with single spaces using the private `collect`.

The model is written in four modules:

- `Strings` (`strings.dfy`) holds the library operations the source calls:
  `lastIndexOf` and `contains`. It also holds the space-join that `collect`
  produces and the split that undoes it.
- `Lapps` (`lapps.dfy`) holds the values that cross the service's boundary:
  `Data` and its discriminator, files, the index, and the file system.
- `FileTypes` (`file_types.dfy`) holds the extension table and `getFileType`.
- `DataSources` (`data_sources.dfy`) holds the class `AbstractDataSource`.
  Its two fields are `index` and `savedException`. `size`, `list`, `get` and
  `query` are functions that read those fields. `doQuery` and `collect` are
  methods with loops, proved against the specification functions `Matching`
  and `Join`.

The file system is an explicit parameter: a set of existing files and a total
read function that returns a file's text or the message of an I/O failure.
The index is an ordered key sequence plus a key-to-file map; an absent key is
a key for which the index returns `null`.

Points of the program's behaviour that the model keeps as they are:

- A key that is mapped but whose file is missing gives "File not found.",
  a different message from the "No such file." of an unmapped key.
- An unknown request type gives "Unsupported operation.", which does not
  name the type.
- Extensions are matched case-sensitively, so `data.JSON` is plain text
  (`UpperCaseExtensionIsText`).
- `list` is a stub that always fails; it does no start/end slicing.
- `size` and a direct `get` do not consult `savedException`; only `query`
  does. They answer from the index, which the model always has (see the null
  references line under "## Left out").
- `doQuery` returns one space-joined string tagged as an index result, not a
  list of keys. Keys survive the join only when none of them contains a space
  and at least one key matched (`MatchedKeysRecoverable`). No match and a
  single empty key both give `""`.
- The class has no get-metadata request and no "missing key" validation.

## Model

| member | source | states |
|---|---|---|
| `Strings.LastIndexOf` | src/main/java/org/anc/lapps/core/AbstractDataSource.java:131 | The result is -1 exactly when the character is absent. Otherwise it is a position holding the character, and no later position holds it. |
| `Strings.Contains` | src/main/java/org/anc/lapps/core/AbstractDataSource.java:150 | True exactly when the query occurs at some position of the string as a contiguous block. The empty query occurs in every string. |
| `Strings.JoinConcat` | src/main/java/org/anc/lapps/core/AbstractDataSource.java:164-177 | Joining two non-empty lists places exactly one space where they meet. |
| `Strings.JoinLength` | src/main/java/org/anc/lapps/core/AbstractDataSource.java:164-177 | The join of n > 0 items is as long as their lengths summed plus n-1: one separator between each two neighbours, and by Join's definition none at either end. |
| `Strings.SplitJoin` | src/main/java/org/anc/lapps/core/AbstractDataSource.java:158-163 | Splitting a join on spaces returns the items, provided there is at least one item and none contains a space. |
| `Strings.JoinSplit` | src/main/java/org/anc/lapps/core/AbstractDataSource.java:158-163 | Joining the space-separated pieces of any string rebuilds that string. |
| `Lapps.Name` | src/main/java/org/anc/lapps/core/AbstractDataSource.java:130 | A file's name is the suffix of its path after the last '/'. It contains no '/', and it is the whole path when the path has no '/'. |
| `FileTypes.FileTypeOfName` | src/main/java/org/anc/lapps/core/AbstractDataSource.java:128-142 | The resolver is total, and it always gives one of the four content types. |
| `FileTypes.FileType` | src/main/java/org/anc/lapps/core/AbstractDataSource.java:128-142 | A file's type is always one of the four content types. |
| `FileTypes.FileTypeIgnoresDirectory` | src/main/java/org/anc/lapps/core/AbstractDataSource.java:130 | Only the file's name, the last path component, decides its type. A dot in a directory name never makes an extension. |
| `FileTypes.NoExtensionIsText` | src/main/java/org/anc/lapps/core/AbstractDataSource.java:130-135 | A name with no '.', or whose only '.' is its first character (such as ".hidden"), resolves to TEXT. |
| `FileTypes.ExtensionLookup` | src/main/java/org/anc/lapps/core/AbstractDataSource.java:37-41 | For a non-empty stem followed by '.' and a dot-free extension, the result is the table entry for that exact extension. The table is txt→TEXT, xml→XML, hdr→XML, json→JSON, jsonld→JSON_LD. Any other extension gives TEXT. |
| `FileTypes.NameDecomposes` | src/main/java/org/anc/lapps/core/AbstractDataSource.java:131-136 | Every name that NoExtensionIsText does not cover splits into a non-empty stem, '.', and a dot-free extension. So the two lemmas together cover all names. |
| `FileTypes.UpperCaseExtensionIsText` | src/main/java/org/anc/lapps/core/AbstractDataSource.java:136 | The lookup is case-sensitive: "data.JSON" gives TEXT while "data.json" gives JSON. |
| `DataSources.AbstractDataSource.constructor` | src/main/java/org/anc/lapps/core/AbstractDataSource.java:32-44 | A new source holds the given index and has no saved exception. |
| `DataSources.AbstractDataSource.Size` | src/main/java/org/anc/lapps/core/AbstractDataSource.java:47-51 | The size is the number of keys the index enumerates, which is 0 for an empty index. |
| `DataSources.AbstractDataSource.List` | src/main/java/org/anc/lapps/core/AbstractDataSource.java:54-61 | Every call gives an error with the message "Not implemented". |
| `DataSources.AbstractDataSource.Get` | src/main/java/org/anc/lapps/core/AbstractDataSource.java:63-99 | An unmapped key gives "No such file.". A mapped key whose file is missing gives "File not found.". A failed read gives the failure's message. The result is a success exactly when the document is loadable. A success is tagged with the file's content type and carries the file's full text. |
| `DataSources.AbstractDataSource.Query` | src/main/java/org/anc/lapps/core/AbstractDataSource.java:102-119 | A saved exception gives its message for every request. Otherwise GET delegates to Get on the payload, LIST gives "Not implemented", and any other type gives "Unsupported operation.". |
| `DataSources.AbstractDataSource.DoQuery` | src/main/java/org/anc/lapps/core/AbstractDataSource.java:144-156 | Over an index that maps every key it enumerates, the result is tagged as an index. Its payload is the space-join of Matching, the enumerated keys whose path contains the query, in order. |
| `DataSources.AbstractDataSource.Collect` | src/main/java/org/anc/lapps/core/AbstractDataSource.java:164-178 | The result is Join of the list: "" for the empty list, the element itself for a singleton, and the summed lengths plus n-1 otherwise. |
| `DataSources.MatchingMembers` | src/main/java/org/anc/lapps/core/AbstractDataSource.java:147-153 | A key is in the query result exactly when the index enumerates it and maps it to a file whose path contains the query string. |
| `DataSources.MatchingSubMultiset` | src/main/java/org/anc/lapps/core/AbstractDataSource.java:147-153 | The query result holds no key more often than the enumeration does, so distinct keys give a duplicate-free result. |
| `DataSources.MatchingConcat` | src/main/java/org/anc/lapps/core/AbstractDataSource.java:147-153 | Filtering distributes over concatenation of the enumeration, so enumeration order is preserved. |
| `DataSources.EmptyQueryMatchesAll` | src/main/java/org/anc/lapps/core/AbstractDataSource.java:150 | Over an index that maps every enumerated key, the empty query string matches every key, in order. |
| `DataSources.SizeIsEmptyQueryCount` | src/main/java/org/anc/lapps/core/AbstractDataSource.java:47-51 | The size equals the number of keys the empty query finds. |
| `DataSources.MatchedKeysRecoverable` | src/main/java/org/anc/lapps/core/AbstractDataSource.java:155 | When no key contains a space and something matched, splitting the joined payload on spaces gives back the matched keys. |
| `DataSources.QuerySucceedsOnlyByGet` | src/main/java/org/anc/lapps/core/AbstractDataSource.java:102-119 | A request succeeds exactly when no exception is saved, the request is a GET, and its document is loadable. A success is tagged with a content type, never with ERROR. |
| `DataSources.SavedExceptionIgnoresEverythingElse` | src/main/java/org/anc/lapps/core/AbstractDataSource.java:105-108 | With a saved exception, the answer depends only on that exception. It does not depend on the request, the index or the file system. |
| `DataSources.MissingKeyAndMissingFileDiffer` | src/main/java/org/anc/lapps/core/AbstractDataSource.java:67-78 | An unmapped key and a mapped key with a missing file never give the same response. |

## Left out

- Logging through SLF4J is left out, because it has no observable behaviour.
- The extension table is the constant `EXTENSIONS`. The synchronized, lazy
  filling of a static map in the constructor is left out, because it only
  matters for concurrency.
- `UTF8Reader` and `File.exists()` are I/O. The `FileSystem` parameter
  replaces them: a set of existing files and a read result per file.
- The `Index` implementation, `DataFactory`, `Data` and the discriminator
  registry are not part of this model. They are represented by the `Index`,
  `Data` and `Discriminator` datatypes. `type(query)` is read off the
  request's discriminator.
- Java's `File` path normalisation is left out. A `File` is given by an
  already-normalised path, and its name is the text after the last '/'.
- A `null` exception message is left out. Messages are plain strings.
- Null references are not modelled. A null `index` makes `size`, `get` and
  `doQuery` throw a `NullPointerException`, and so does a null query string in
  `doQuery`. The model's `index` is always a value, and its query string is
  always a string.
- `size` returns a Java `long`; it is modelled as a `nat`. The `int`
  saturation of `Collection.size()` at 2^31-1 keys is left out.
- `savedException` is protected and nothing in this class assigns it. The
  model keeps it as a field that any client may assign.
- The table stores `Constants.Uri.TEXT` for `txt`, while the two fallbacks
  return `Uri.TEXT` from `org.lappsgrid.discriminator.Uri`. The model takes
  these two constants to be the same discriminator, `Text`. If they were
  different strings, a `.txt` file and a file without an extension would get
  different tags; `FileTypes.NoExtensionIsText`, `FileTypes.ExtensionLookup`
  and `DataSources.QuerySucceedsOnlyByGet` rest on this identification.
- Slicing in `list` is commented out in the source, so it is not modelled.
- `DataSources.AbstractDataSource.DoQuery` requires that every enumerated key
  is mapped to a file. The source throws a `NullPointerException` otherwise,
  and that failure is not modelled.
- `DataSources.AbstractDataSource.Collect` walks a sequence by position
  instead of a `Collection` iterator. The order of items is the iterator's
  order.
