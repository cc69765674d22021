/** The values the data source exchanges with its collaborators: the tagged
    `Data` objects of the LAPPS API, files named by their path, the index that
    maps keys to files, and the file system that the data source reads from. */
module Lapps {
  import opened Strings

  datatype Option<T> = None | Some(value: T)

  /** The discriminators a `Data` object may carry: the four content types a
      document can have, the error tag, the tag of a key-list result, the two
      request types the data source serves, and every other request type by name.
      `Text` stands both for the table's text type and for the fallback text type. */
  datatype Discriminator =
    | Text | Xml | Json | JsonLd
    | Error | IndexResult
    | GetRequest | ListRequest
    | Other(name: string)
  {
    /** A content type a document may be returned with. */
    predicate IsContentType() {
      Text? || Xml? || Json? || JsonLd?
    }
  }

  /** A request or a response: a discriminator and a textual payload. */
  datatype Data = Data(discriminator: Discriminator, payload: string)

  /** `DataFactory.error(message)`: a response tagged as an error, carrying the message. */
  function ErrorData(message: string): Data {
    Data(Error, message)
  }

  /** A file, named by its (normalised) path. */
  datatype File = File(path: string)

  /** `File.getName()`: the last component of the path, the text after the last '/'. */
  function Name(f: File): (r: string)
    ensures '/' !in r
    ensures |r| <= |f.path| && r == f.path[|f.path| - |r|..]
    ensures '/' !in f.path ==> r == f.path
    ensures '/' in f.path ==> f.path[|f.path| - |r| - 1] == '/'
  {
    f.path[LastIndexOf(f.path, '/') + 1..]
  }

  /** What reading a whole file gives: its text, or the message of the I/O failure. */
  datatype ReadResult = Loaded(text: string) | IOFailure(message: string)

  /** The file system, as far as the data source sees it: which files exist, and
      what reading each of them gives. */
  datatype FileSystem = FileSystem(present: set<File>, read: File -> ReadResult)

  /** The external index: the keys in enumeration order, and the file each key maps to.
      A key absent from `files` is one for which the index returns no file. */
  datatype Index = Index(keys: seq<string>, files: map<string, File>) {
    /** Every key the index enumerates is one it maps to a file. */
    predicate Valid() {
      forall k :: k in keys ==> k in files
    }
  }
}
