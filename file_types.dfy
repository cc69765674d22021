/** The content-type resolver: a document's discriminator is chosen by the
    extension of its file name, through a fixed five-entry table, with plain
    text as the fallback. */
module FileTypes {
  import opened Strings
  import opened Lapps

  /** The extension table. Keys are matched exactly, so the match is case-sensitive. */
  const EXTENSIONS: map<string, Discriminator> :=
    map["txt" := Text, "xml" := Xml, "hdr" := Xml, "json" := Json, "jsonld" := JsonLd]

  /** The content type of a file called `name`: the table's entry for the text after
      the last '.', or plain text when there is no '.', when the only '.' that could
      start an extension is the first character, or when the extension is not in the table. */
  function FileTypeOfName(name: string): (r: Discriminator)
    ensures r.IsContentType()
  {
    var dot := LastIndexOf(name, '.');
    if dot <= 0 then Text
    else
      var extension := name[dot + 1..];
      if extension in EXTENSIONS then EXTENSIONS[extension] else Text
  }

  /** `getFileType(file)`: the content type of the file, from its name. */
  function FileType(f: File): (r: Discriminator)
    ensures r.IsContentType()
  {
    FileTypeOfName(Name(f))
  }

  /** Only the last path component counts: the directories a file sits in, dots
      and all, do not change its type. */
  lemma FileTypeIgnoresDirectory(directory: string, name: string)
    requires '/' !in name
    ensures FileType(File(directory + "/" + name)) == FileTypeOfName(name)
  {
    var path := directory + "/" + name;
    var slash := LastIndexOf(path, '/');
    assert path[|directory|] == '/';
    assert slash == |directory|;
    assert path[slash + 1..] == name;
  }

  /** A name without a '.', or whose only '.' is its first character (a hidden
      file such as ".hidden"), has no extension and resolves to plain text. */
  lemma NoExtensionIsText(name: string)
    requires '.' !in name || (|name| > 0 && name[0] == '.' && '.' !in name[1..])
    ensures FileTypeOfName(name) == Text
  {
  }

  /** A name with a non-empty stem before its last '.' resolves through the table,
      by the exact text after that '.'; an extension missing from the table gives
      plain text. Together with NoExtensionIsText this covers every name. */
  lemma ExtensionLookup(stem: string, extension: string)
    requires |stem| > 0 && '.' !in extension
    ensures FileTypeOfName(stem + "." + extension)
         == if extension in EXTENSIONS then EXTENSIONS[extension] else Text
  {
    var name := stem + "." + extension;
    var dot := LastIndexOf(name, '.');
    assert name[|stem|] == '.';
    assert dot == |stem|;
    assert name[dot + 1..] == extension;
  }

  /** Every name that NoExtensionIsText does not cover is a stem, a '.', and an
      extension free of '.', as ExtensionLookup needs. */
  lemma NameDecomposes(name: string)
    requires !('.' !in name || (|name| > 0 && name[0] == '.' && '.' !in name[1..]))
    ensures exists stem, extension ::
      |stem| > 0 && '.' !in extension && name == stem + "." + extension
  {
    var dot := LastIndexOf(name, '.');
    assert dot != 0;
    var stem, extension := name[..dot], name[dot + 1..];
    assert name == stem + "." + extension;
  }

  /** The match is case-sensitive: an upper-case extension is not in the table. */
  lemma UpperCaseExtensionIsText()
    ensures FileTypeOfName("data.JSON") == Text
    ensures FileTypeOfName("data.json") == Json
  {
    assert "data" + "." + "JSON" == "data.JSON";
    assert "data" + "." + "json" == "data.json";
    ExtensionLookup("data", "JSON");
    ExtensionLookup("data", "json");
  }
}
