/**
  `FileSystemLinkRepository`: one file per link in the `db` directory,
  named `<hash_id>.txt` and holding the link's `to_dict` document.
  The directory is a map from file name to document. `create` opens its
  file in exclusive mode and so fails on an existing name; `update` rewrites
  the whole file; `delete` reports whether the file was there; `get()` lists
  the directory, strips `.txt` from each name and reads that link back.
*/
module FileSystemStore {
  import opened Links
  import opened Listings

  const Suffix: string := ".txt"

  /** `f"{hash_id}.txt"` */
  function FileName(hashId: string): (name: string)
    ensures |name| == |hashId| + |Suffix| && name[..|hashId|] == hashId
    ensures name[|hashId|..] == Suffix
  {
    hashId + Suffix
  }

  /** `str.removesuffix`: drops `suffix` when `s` ends with it, otherwise returns `s`. */
  function RemoveSuffix(s: string, suffix: string): (r: string)
    ensures if suffix != [] && |suffix| <= |s| && s[|s| - |suffix|..] == suffix
            then r + suffix == s
            else r == s
  {
    if suffix != [] && |suffix| <= |s| && s[|s| - |suffix|..] == suffix
    then s[..|s| - |suffix|] else s
  }

  /** Stripping the suffix from a link's file name gives back its hash id. */
  lemma RemoveSuffixOfFileName(hashId: string)
    ensures RemoveSuffix(FileName(hashId), Suffix) == hashId
  {
    var name := FileName(hashId);
    assert name[|name| - |Suffix|..] == Suffix;
    assert name[..|name| - |Suffix|] == hashId;
  }

  /** Every name that ends in `.txt` is the file name of what stripping it leaves. */
  lemma FileNameOfRemoveSuffix(name: string)
    requires HasSuffix(name)
    ensures FileName(RemoveSuffix(name, Suffix)) == name
  {
  }

  /**
    `_read_single_link(hash_id)`: opens `<hash_id>.txt` (FileNotFoundError
    when it is missing) and decodes its document with `from_dict`.
  */
  function ReadSingle(directory: map<string, Doc>, hashId: string): (r: Result<Link>)
    ensures FileName(hashId) !in directory ==> r == Failure(FileNotFoundError(FileName(hashId)))
    ensures FileName(hashId) in directory ==> r == FromDict(directory[FileName(hashId)])
  {
    var name := FileName(hashId);
    if name !in directory then Failure(FileNotFoundError(name)) else FromDict(directory[name])
  }

  /** Whether `name` ends in `.txt`. */
  predicate HasSuffix(name: string) {
    |Suffix| <= |name| && name[|name| - |Suffix|..] == Suffix
  }

  /**
    What `get()` reads for one entry of the directory listing: the suffix is
    stripped and `_read_single_link` adds it back, so a `.txt` entry reads
    exactly that file, and any other entry reads `<name>.txt` instead.
  */
  function ReadListed(directory: map<string, Doc>, name: string): (r: Result<Link>)
    ensures HasSuffix(name) && name !in directory ==> r == Failure(FileNotFoundError(name))
    ensures HasSuffix(name) && name in directory ==> r == FromDict(directory[name])
    ensures !HasSuffix(name) ==> r == ReadSingle(directory, name)
  {
    ReadSingle(directory, RemoveSuffix(name, Suffix))
  }

  /**
    Every file is one that this store wrote: its document decodes to a link
    whose file name is the file's own name.
  */
  ghost predicate Owned(directory: map<string, Doc>) {
    forall name :: name in directory ==>
      FromDict(directory[name]).Success? && FileName(FromDict(directory[name]).value.hashId) == name
  }

  /** A file written by `create` or `update` reads back as the link that was written. */
  lemma ReadBackWritten(directory: map<string, Doc>, l: Link)
    ensures ReadSingle(directory[FileName(l.hashId) := ToDict(l)], l.hashId) == Success(l)
  {
    RoundTrip(l);
  }

  /** Writing a link to its own file keeps every file owned. */
  lemma WritingKeepsOwned(directory: map<string, Doc>, l: Link)
    requires Owned(directory)
    ensures Owned(directory[FileName(l.hashId) := ToDict(l)])
  {
    RoundTrip(l);
  }

  /** Removing a file keeps every remaining file owned. */
  lemma DeletingKeepsOwned(directory: map<string, Doc>, name: string)
    requires Owned(directory)
    ensures Owned(directory - {name})
  {
  }

  /**
    Listing a directory of owned files: every entry reads back, and the hash
    id of the link read is the entry's name with `.txt` stripped; there are
    as many entries as files.
  */
  lemma ListingOwned(directory: map<string, Doc>, listing: seq<string>)
    requires Owned(directory) && Enumerates(listing, directory.Keys)
    ensures |listing| == |directory|
    ensures forall i :: 0 <= i < |listing| ==>
      && ReadListed(directory, listing[i]).Success?
      && ReadListed(directory, listing[i]).value.hashId == RemoveSuffix(listing[i], Suffix)
      && FileName(ReadListed(directory, listing[i]).value.hashId) == listing[i]
  {
    EnumerationSize(listing, directory.Keys);
    forall i | 0 <= i < |listing|
      ensures && ReadListed(directory, listing[i]).Success?
              && ReadListed(directory, listing[i]).value.hashId == RemoveSuffix(listing[i], Suffix)
              && FileName(ReadListed(directory, listing[i]).value.hashId) == listing[i]
    {
      var name := listing[i];
      var l := FromDict(directory[name]).value;
      RemoveSuffixOfFileName(l.hashId);
    }
  }

  /** A listed name that lacks `.txt` makes `get()` open `<name>.txt`, a different file. */
  lemma StrayFileIsNotFound(directory: map<string, Doc>, name: string)
    requires !HasSuffix(name)
    requires FileName(name) !in directory
    ensures ReadListed(directory, name) == Failure(FileNotFoundError(FileName(name)))
  {
  }

  class FileSystemLinkRepository {
    /** The `db` directory: file name to the document the file holds. */
    var directory: map<string, Doc>

    /** Opens the `db` directory, which may already hold files. */
    constructor (existing: map<string, Doc>)
      ensures directory == existing
    {
      directory := existing;
    }

    /**
      `create(link)`: exclusive creation of `<hash_id>.txt`. An existing file
      makes it fail and stay as it was; otherwise exactly that file is added.
    */
    method Create(link: Link) returns (r: Result<Link>)
      modifies this
      ensures FileName(link.hashId) in old(directory) ==>
        r == Failure(FileExistsError(FileName(link.hashId))) && directory == old(directory)
      ensures FileName(link.hashId) !in old(directory) ==>
        r == Success(link) && directory == old(directory)[FileName(link.hashId) := ToDict(link)]
    {
      var name := FileName(link.hashId);
      if name in directory {
        return Failure(FileExistsError(name));
      }
      directory := directory[name := ToDict(link)];
      r := Success(link);
    }

    /** `_read_single_link(hash_id)` */
    method ReadSingleLink(hashId: string) returns (r: Result<Link>)
      ensures r == ReadSingle(directory, hashId)
    {
      var name := FileName(hashId);
      if name !in directory {
        return Failure(FileNotFoundError(name));
      }
      r := FromDict(directory[name]);
    }

    /** `get(hash_id)`: reads `<hash_id>.txt`, failing when the file is missing. */
    method Get(hashId: string) returns (r: Result<Link>)
      ensures r == ReadSingle(directory, hashId)
    {
      r := ReadSingleLink(hashId);
    }

    /**
      `get()`: reads the file behind every entry of `listing`, the result of
      `os.listdir`, in that order; the first entry that cannot be read
      aborts the whole listing with its error.
    */
    method GetAll(listing: seq<string>) returns (r: Result<seq<Link>>)
      ensures r.Success? <==> forall i :: 0 <= i < |listing| ==> ReadListed(directory, listing[i]).Success?
      ensures r.Success? ==>
        && |r.value| == |listing|
        && forall i :: 0 <= i < |listing| ==> r.value[i] == ReadListed(directory, listing[i]).value
      ensures r.Failure? ==> exists i ::
        && 0 <= i < |listing|
        && ReadListed(directory, listing[i]) == Failure(r.error)
        && forall j :: 0 <= j < i ==> ReadListed(directory, listing[j]).Success?
    {
      var links: seq<Link> := [];
      for i := 0 to |listing|
        invariant |links| == i
        invariant forall j :: 0 <= j < i ==>
          ReadListed(directory, listing[j]).Success? && links[j] == ReadListed(directory, listing[j]).value
      {
        var hashId := RemoveSuffix(listing[i], Suffix);
        var link := ReadSingleLink(hashId);
        if link.Failure? {
          return Failure(link.error);
        }
        links := links + [link.value];
      }
      r := Success(links);
    }

    /** `update(link, add_views)`: rewrites `<hash_id>.txt` with the link's views increased. */
    method Update(link: Link, addViews: int := 1) returns (r: Link)
      modifies this
      ensures r == Bumped(link, addViews)
      ensures directory == old(directory)[FileName(link.hashId) := ToDict(r)]
    {
      r := Bumped(link, addViews);
      directory := directory[FileName(link.hashId) := ToDict(r)];
    }

    /** `delete(hash_id)`: removes `<hash_id>.txt` and tells whether it existed. */
    method Delete(hashId: string) returns (existed: bool)
      modifies this
      ensures existed <==> FileName(hashId) in old(directory)
      ensures directory == old(directory) - {FileName(hashId)}
    {
      var name := FileName(hashId);
      existed := name in directory;
      if existed {
        directory := directory - {name};
      }
    }
  }

  /** A caller: a second `create` of the same hash id fails and leaves the first file. */
  method DuplicateCreateScenario(a: Link, b: Link)
    requires a.hashId == b.hashId && a != b
  {
    var repo := new FileSystemLinkRepository(map[]);
    var first := repo.Create(a);
    assert first == Success(a);
    var second := repo.Create(b);
    assert second.Failure?;
    var got := repo.Get(a.hashId);
    ReadBackWritten(map[], a);
    assert got == Success(a);
  }

  /** A caller: update then delete twice; the second delete reports false. */
  method DeleteScenario(a: Link)
    requires a.views == 0
  {
    var repo := new FileSystemLinkRepository(map[]);
    var created := repo.Create(a);
    var bumped := repo.Update(a);
    var got := repo.Get(a.hashId);
    ReadBackWritten(map[FileName(a.hashId) := ToDict(a)], bumped);
    assert got.Success? && got.value.views == 1;
    var removed := repo.Delete(a.hashId);
    assert removed;
    var again := repo.Delete(a.hashId);
    assert !again;
    got := repo.Get(a.hashId);
    assert got.Failure?;
  }
}
