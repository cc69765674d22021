/** The read-only data source in front of a key-to-file index: it answers GET
    requests with a document's text, tagged by its content type, refuses LIST
    and every other request type, and can filter the index's keys by a
    substring of their file paths. */
module DataSources {
  import opened Strings
  import opened Lapps
  import opened FileTypes

  const NO_SUCH_FILE := "No such file."
  const FILE_NOT_FOUND := "File not found."
  const NOT_IMPLEMENTED := "Not implemented"
  const UNSUPPORTED := "Unsupported operation."

  /** `key` is mapped by the index to a file whose path contains `q`. */
  predicate PathMatches(files: map<string, File>, q: string, key: string) {
    key in files && Contains(files[key].path, q)
  }

  /** The keys of `keys`, in the same order and with the same repetitions, whose
      file's path contains `q`. */
  function Matching(keys: seq<string>, files: map<string, File>, q: string): seq<string> {
    if |keys| == 0 then []
    else
      var last := keys[|keys| - 1];
      Matching(keys[..|keys| - 1], files, q) + (if PathMatches(files, q, last) then [last] else [])
  }

  class AbstractDataSource {
    /** The index the documents are looked up in. */
    var index: Index
    /** The message of the exception stored in `savedException`, if any. */
    var savedException: Option<string>

    constructor (index: Index)
      ensures this.index == index && savedException == None
    {
      this.index := index;
      savedException := None;
    }

    /** `size`: the number of keys the index enumerates (0 for an empty index). */
    function Size(data: Data): (n: nat)
      reads this
      ensures n == |index.keys|
    {
      |index.keys|
    }

    /** `list`: not implemented; every call gives the same error. */
    function List(data: Data): (r: Data)
      ensures r.discriminator == Error && r.payload == NOT_IMPLEMENTED
    {
      ErrorData(NOT_IMPLEMENTED)
    }

    /** The document under `key` can be loaded: the index maps the key, the file
        exists, and reading it succeeds. */
    predicate Loadable(key: string, fs: FileSystem)
      reads this
    {
      key in index.files && index.files[key] in fs.present && fs.read(index.files[key]).Loaded?
    }

    /** `get`: the document under `key`, tagged by its content type, or an error that
        tells an unmapped key from a missing file and from a failed read. */
    function Get(key: string, fs: FileSystem): (r: Data)
      reads this
      ensures key !in index.files ==> r == ErrorData(NO_SUCH_FILE)
      ensures key in index.files && index.files[key] !in fs.present ==> r == ErrorData(FILE_NOT_FOUND)
      ensures r.discriminator != Error <==> Loadable(key, fs)
      ensures Loadable(key, fs) ==>
        r.discriminator.IsContentType() &&
        r.discriminator == FileType(index.files[key]) &&
        r.payload == fs.read(index.files[key]).text
      ensures key in index.files && index.files[key] in fs.present && fs.read(index.files[key]).IOFailure? ==>
        r == ErrorData(fs.read(index.files[key]).message)
    {
      if key !in index.files then ErrorData(NO_SUCH_FILE)
      else
        var file := index.files[key];
        if file !in fs.present then ErrorData(FILE_NOT_FOUND)
        else
          var fileType := FileType(file);
          match fs.read(file)
          case Loaded(text) => Data(fileType, text)
          case IOFailure(message) => ErrorData(message)
    }

    /** `query`: a saved exception refuses every request; otherwise GET is served by
        Get on the request's payload, LIST by List, and every other type is refused. */
    function Query(query: Data, fs: FileSystem): (r: Data)
      reads this
      ensures savedException.Some? ==> r == ErrorData(savedException.value)
      ensures savedException.None? && query.discriminator.GetRequest? ==> r == Get(query.payload, fs)
      ensures savedException.None? && query.discriminator.ListRequest? ==> r == ErrorData(NOT_IMPLEMENTED)
      ensures savedException.None? && !query.discriminator.GetRequest? && !query.discriminator.ListRequest? ==> r == ErrorData(UNSUPPORTED)
    {
      if savedException.Some? then ErrorData(savedException.value)
      else if query.discriminator.GetRequest? then Get(query.payload, fs)
      else if query.discriminator.ListRequest? then List(query)
      else ErrorData(UNSUPPORTED)
    }

    /** `doQuery`: the keys whose file path contains `queryString`, in index order,
        joined by single spaces into one index-tagged payload. */
    method DoQuery(queryString: string) returns (r: Data)
      requires index.Valid()
      ensures r == Data(IndexResult, Join(Matching(index.keys, index.files, queryString)))
    {
      var keys := index.keys;
      var list: seq<string> := [];
      for i := 0 to |keys|
        invariant list == Matching(keys[..i], index.files, queryString)
      {
        assert keys[..i + 1][..i] == keys[..i];
        var file := index.files[keys[i]];
        if Contains(file.path, queryString) {
          list := list + [keys[i]];
        }
      }
      assert keys[..|keys|] == keys;
      var text := Collect(list);
      r := Data(IndexResult, text);
    }

    /** `collect`: the items of `list` with one space between each two neighbours and
        none at either end. */
    method Collect(list: seq<string>) returns (r: string)
      ensures r == Join(list)
      ensures |list| == 0 ==> r == ""
      ensures |list| == 1 ==> r == list[0]
      ensures |list| > 0 ==> |r| == TotalLength(list) + |list| - 1
    {
      r := "";
      var i := 0;
      if i < |list| {
        r := r + list[i];
        i := i + 1;
      }
      while i < |list|
        invariant 0 <= i <= |list|
        invariant |list| > 0 ==> i > 0
        invariant r == Join(list[..i])
      {
        JoinConcat(list[..i], [list[i]]);
        assert list[..i] + [list[i]] == list[..i + 1];
        r := r + " " + list[i];
        i := i + 1;
      }
      assert list[..i] == list;
      if |list| > 0 {
        JoinLength(list);
      }
    }
  }

  /** A key is matched exactly when the index enumerates it and maps it to a file
      whose path contains the query string. */
  lemma {:induction false} MatchingMembers(keys: seq<string>, files: map<string, File>, q: string, key: string)
    ensures key in Matching(keys, files, q) <==> key in keys && PathMatches(files, q, key)
    decreases |keys|
  {
    if |keys| > 0 {
      var init := keys[..|keys| - 1];
      MatchingMembers(init, files, q, key);
      assert keys == init + [keys[|keys| - 1]];
    }
  }

  /** Matching keeps no more copies of a key than the enumeration has. */
  lemma {:induction false} MatchingSubMultiset(keys: seq<string>, files: map<string, File>, q: string)
    ensures multiset(Matching(keys, files, q)) <= multiset(keys)
    decreases |keys|
  {
    if |keys| > 0 {
      var init := keys[..|keys| - 1];
      MatchingSubMultiset(init, files, q);
      assert keys == init + [keys[|keys| - 1]];
    }
  }

  /** Matching keeps the enumeration order: it distributes over concatenation. */
  lemma {:induction false} MatchingConcat(xs: seq<string>, ys: seq<string>, files: map<string, File>, q: string)
    ensures Matching(xs + ys, files, q) == Matching(xs, files, q) + Matching(ys, files, q)
    decreases |ys|
  {
    if |ys| == 0 {
      assert xs + ys == xs;
    } else {
      var init := ys[..|ys| - 1];
      MatchingConcat(xs, init, files, q);
      assert (xs + ys)[..|xs + ys| - 1] == xs + init;
    }
  }

  /** Every path contains the empty string, so over a valid index the empty query
      matches every key, in order. */
  lemma {:induction false} EmptyQueryMatchesAll(keys: seq<string>, files: map<string, File>)
    requires forall k :: k in keys ==> k in files
    ensures Matching(keys, files, "") == keys
    decreases |keys|
  {
    if |keys| > 0 {
      var init := keys[..|keys| - 1];
      assert OccursAt(files[keys[|keys| - 1]].path, "", 0);
      EmptyQueryMatchesAll(init, files);
    }
  }

  /** The size of a data source is the number of keys the empty query finds. */
  lemma SizeIsEmptyQueryCount(ds: AbstractDataSource, data: Data)
    requires ds.index.Valid()
    ensures ds.Size(data) == |Matching(ds.index.keys, ds.index.files, "")|
  {
    EmptyQueryMatchesAll(ds.index.keys, ds.index.files);
  }

  /** When no key contains a space, the matched keys can be recovered from the joined
      payload of a query that matched something. */
  lemma MatchedKeysRecoverable(keys: seq<string>, files: map<string, File>, q: string)
    requires forall k :: k in keys ==> ' ' !in k
    requires |Matching(keys, files, q)| > 0
    ensures Split(Join(Matching(keys, files, q))) == Matching(keys, files, q)
  {
    var m := Matching(keys, files, q);
    forall i | 0 <= i < |m|
      ensures ' ' !in m[i]
    {
      MatchingMembers(keys, files, q, m[i]);
    }
    SplitJoin(m);
  }

  /** A request succeeds exactly when no exception was saved, it is a GET, and the
      document under its payload can be loaded; a success is always tagged with a
      content type, so a response is told from an error by its tag alone. */
  lemma QuerySucceedsOnlyByGet(ds: AbstractDataSource, query: Data, fs: FileSystem)
    ensures ds.Query(query, fs).discriminator != Error
       <==> ds.savedException.None? && query.discriminator.GetRequest? && ds.Loadable(query.payload, fs)
    ensures ds.Query(query, fs).discriminator != Error ==> ds.Query(query, fs).discriminator.IsContentType()
  {
  }

  /** With a saved exception, the answer depends on nothing else: not on the request,
      the index, nor the file system. */
  lemma SavedExceptionIgnoresEverythingElse(a: AbstractDataSource, b: AbstractDataSource,
                                             qa: Data, qb: Data, fa: FileSystem, fb: FileSystem)
    requires a.savedException.Some? && a.savedException == b.savedException
    ensures a.Query(qa, fa) == b.Query(qb, fb)
  {
  }

  /** An unmapped key and a missing file are reported with different messages. */
  lemma MissingKeyAndMissingFileDiffer(ds: AbstractDataSource, k1: string, k2: string, fs: FileSystem)
    requires k1 !in ds.index.files
    requires k2 in ds.index.files && ds.index.files[k2] !in fs.present
    ensures ds.Get(k1, fs) != ds.Get(k2, fs)
  {
  }
}
