/**
  `RedisLinkRepository`: every link is stored as its `to_dict` document under
  the key `hash_id` of a Redis keyspace, modelled as a map from key to
  document. `SET` overwrites unconditionally, a `GET` of a missing key yields
  `None` instead of an error, `DEL` answers how many keys it removed, and
  `get()` reads back every key that `KEYS` lists.
*/
module RedisStore {
  import opened Links
  import opened Listings

  /**
    `_read_single_link(hash_id)`: `None` for an absent key, otherwise the
    decoded document (whose decoding may fail).
  */
  function ReadSingle(keyspace: map<string, Doc>, hashId: string): (r: Result<Option<Link>>)
    ensures hashId !in keyspace ==> r == Success(None)
    ensures hashId in keyspace ==> match FromDict(keyspace[hashId])
                                   case Success(l) => r == Success(Some(l))
                                   case Failure(e) => r == Failure(e)
  {
    if hashId !in keyspace then Success(None)
    else match FromDict(keyspace[hashId])
         case Success(l) => Success(Some(l))
         case Failure(e) => Failure(e)
  }

  /** A key set by `create` or `update` reads back as the link that was set. */
  lemma ReadBackSet(keyspace: map<string, Doc>, l: Link)
    ensures ReadSingle(keyspace[l.hashId := ToDict(l)], l.hashId) == Success(Some(l))
  {
    RoundTrip(l);
  }

  /** Every value in the keyspace is the document of a link stored under its own hash id. */
  ghost predicate Owned(keyspace: map<string, Doc>) {
    forall k :: k in keyspace ==>
      FromDict(keyspace[k]).Success? && FromDict(keyspace[k]).value.hashId == k
  }

  /** Setting a link under its hash id keeps the keyspace owned. */
  lemma SettingKeepsOwned(keyspace: map<string, Doc>, l: Link)
    requires Owned(keyspace)
    ensures Owned(keyspace[l.hashId := ToDict(l)])
  {
    RoundTrip(l);
  }

  /** Deleting a key keeps every remaining value owned. */
  lemma DeletingKeepsOwned(keyspace: map<string, Doc>, key: string)
    requires Owned(keyspace)
    ensures Owned(keyspace - {key})
  {
  }

  /**
    Reading every listed key of an owned keyspace: each read yields the link
    stored under that key, and there are as many keys as stored links.
  */
  lemma ListingOwned(keyspace: map<string, Doc>, keys: seq<string>)
    requires Owned(keyspace) && Enumerates(keys, keyspace.Keys)
    ensures |keys| == |keyspace|
    ensures forall i :: 0 <= i < |keys| ==>
      && ReadSingle(keyspace, keys[i]).Success?
      && ReadSingle(keyspace, keys[i]).value.Some?
      && ReadSingle(keyspace, keys[i]).value.value.hashId == keys[i]
  {
    EnumerationSize(keys, keyspace.Keys);
  }

  class RedisLinkRepository {
    /** The Redis keyspace: key to the JSON document stored under it. */
    var keyspace: map<string, Doc>

    /** Connects to a keyspace that may already hold keys. */
    constructor (existing: map<string, Doc>)
      ensures keyspace == existing
    {
      keyspace := existing;
    }

    /** `create(link)`: `SET hash_id`, replacing any value the key held. */
    method Create(link: Link) returns (r: Link)
      modifies this
      ensures r == link
      ensures keyspace == old(keyspace)[link.hashId := ToDict(link)]
    {
      keyspace := keyspace[link.hashId := ToDict(link)];
      r := link;
    }

    /** `_read_single_link(hash_id)` */
    method ReadSingleLink(hashId: string) returns (r: Result<Option<Link>>)
      ensures r == ReadSingle(keyspace, hashId)
    {
      if hashId !in keyspace {
        return Success(None);
      }
      var decoded := FromDict(keyspace[hashId]);
      if decoded.Failure? {
        return Failure(decoded.error);
      }
      r := Success(Some(decoded.value));
    }

    /** `get(hash_id)`: the stored link, or `None` when the key is absent. */
    method Get(hashId: string) returns (r: Result<Option<Link>>)
      ensures r == ReadSingle(keyspace, hashId)
    {
      r := ReadSingleLink(hashId);
    }

    /**
      `get()`: reads every key of `keys`, the answer of `KEYS`, in that
      order; the first value that cannot be decoded aborts the listing.
    */
    method GetAll(keys: seq<string>) returns (r: Result<seq<Option<Link>>>)
      ensures r.Success? <==> forall i :: 0 <= i < |keys| ==> ReadSingle(keyspace, keys[i]).Success?
      ensures r.Success? ==>
        && |r.value| == |keys|
        && forall i :: 0 <= i < |keys| ==> r.value[i] == ReadSingle(keyspace, keys[i]).value
      ensures r.Failure? ==> exists i ::
        && 0 <= i < |keys|
        && ReadSingle(keyspace, keys[i]) == Failure(r.error)
        && forall j :: 0 <= j < i ==> ReadSingle(keyspace, keys[j]).Success?
    {
      var links: seq<Option<Link>> := [];
      for i := 0 to |keys|
        invariant |links| == i
        invariant forall j :: 0 <= j < i ==>
          ReadSingle(keyspace, keys[j]).Success? && links[j] == ReadSingle(keyspace, keys[j]).value
      {
        var link := ReadSingleLink(keys[i]);
        if link.Failure? {
          return Failure(link.error);
        }
        links := links + [link.value];
      }
      r := Success(links);
    }

    /** `update(link, add_views)`: `SET` of the link with its views increased. */
    method Update(link: Link, addViews: int := 1) returns (r: Link)
      modifies this
      ensures r == Bumped(link, addViews)
      ensures keyspace == old(keyspace)[link.hashId := ToDict(r)]
    {
      r := Bumped(link, addViews);
      keyspace := keyspace[link.hashId := ToDict(r)];
    }

    /** `delete(hash_id)`: `DEL`, answering the number of keys removed. */
    method Delete(hashId: string) returns (removed: nat)
      modifies this
      ensures removed == if hashId in old(keyspace) then 1 else 0
      ensures keyspace == old(keyspace) - {hashId}
    {
      removed := if hashId in keyspace then 1 else 0;
      keyspace := keyspace - {hashId};
    }
  }

  /** A caller: an empty keyspace lists nothing; create, update, read back, delete twice. */
  method Scenario(a: Link)
    requires a.views == 0
  {
    var repo := new RedisLinkRepository(map[]);
    var none := repo.GetAll([]);
    assert none == Success([]);
    var missing := repo.Get(a.hashId);
    assert missing == Success(None);
    var created := repo.Create(a);
    var bumped := repo.Update(a);
    var got := repo.Get(a.hashId);
    ReadBackSet(map[a.hashId := ToDict(a)], bumped);
    assert got == Success(Some(bumped)) && bumped.views == 1;
    var removed := repo.Delete(a.hashId);
    assert removed == 1;
    var again := repo.Delete(a.hashId);
    assert again == 0;
  }
}
