/**
  `InMemoryLinkRepository`: a dictionary from hash id to link, kept in
  process memory. `create` and `update` overwrite whatever the key held; a
  lookup of an unknown key raises `KeyError`; there is no `delete`.
  A Python dictionary remembers the order in which its keys were first
  inserted, and `get()` lists the values in that order, so the model keeps
  that order beside the map.
*/
module InMemoryStore {
  import opened Links
  import opened Listings

  class InMemoryLinkRepository {
    var links: map<string, Link>
    /** The keys of `links`, in the order they were first inserted. */
    var insertion: seq<string>

    ghost predicate Valid()
      reads this
    {
      Enumerates(insertion, links.Keys)
    }

    constructor ()
      ensures Valid() && links == map[] && insertion == []
    {
      links := map[];
      insertion := [];
    }

    /** `get()`: every stored link, one per key, in insertion order. */
    method GetAll() returns (r: seq<Link>)
      requires Valid()
      ensures |r| == |insertion| == |links|
      ensures forall i :: 0 <= i < |r| ==> insertion[i] in links && r[i] == links[insertion[i]]
      ensures forall l :: l in r <==> l in links.Values
    {
      EnumerationSize(insertion, links.Keys);
      var keys, stored := insertion, links;
      r := seq(|keys|, i requires 0 <= i < |keys| && keys[i] in stored => stored[keys[i]]);
      forall l | l in links.Values ensures l in r {
        var k :| k in links && links[k] == l;
        var i :| 0 <= i < |insertion| && insertion[i] == k;
        assert r[i] == l;
      }
    }

    /** `get(hash_id)`: `self._links[hash_id]`, a `KeyError` when absent. */
    method Get(hashId: string) returns (r: Result<Link>)
      ensures hashId in links ==> r == Success(links[hashId])
      ensures hashId !in links ==> r == Failure(KeyError(hashId))
    {
      if hashId in links {
        r := Success(links[hashId]);
      } else {
        r := Failure(KeyError(hashId));
      }
    }

    /** Stores `link` under its hash id; a key seen before keeps its place. */
    method Put(link: Link)
      requires Valid()
      modifies this
      ensures Valid()
      ensures links == old(links)[link.hashId := link]
      ensures insertion == if link.hashId in old(links) then old(insertion)
                           else old(insertion) + [link.hashId]
    {
      if link.hashId !in links {
        insertion := insertion + [link.hashId];
      }
      links := links[link.hashId := link];
    }

    /** `create(link)`: stores the link, silently replacing an entry with the same hash id. */
    method Create(link: Link) returns (r: Link)
      requires Valid()
      modifies this
      ensures Valid()
      ensures r == link
      ensures links == old(links)[link.hashId := link]
      ensures insertion == if link.hashId in old(links) then old(insertion)
                           else old(insertion) + [link.hashId]
    {
      Put(link);
      r := link;
    }

    /**
      `update(link, add_views)`: the link with `add_views` more views is
      stored under its hash id, whether or not it was stored before.
    */
    method Update(link: Link, addViews: int := 1) returns (r: Link)
      requires Valid()
      modifies this
      ensures Valid()
      ensures r == Bumped(link, addViews)
      ensures links == old(links)[link.hashId := r]
      ensures insertion == if link.hashId in old(links) then old(insertion)
                           else old(insertion) + [link.hashId]
    {
      r := Bumped(link, addViews);
      Put(r);
    }
  }

  /** A caller that creates, reads back and overwrites, relying only on the contracts above. */
  method CreateScenario(a: Link, b: Link)
    requires a.hashId == b.hashId
  {
    var repo := new InMemoryLinkRepository();
    var missing := repo.Get(a.hashId);
    assert missing == Failure(KeyError(a.hashId));
    var created := repo.Create(a);
    var got := repo.Get(a.hashId);
    assert got == Success(a);
    var replaced := repo.Create(b);
    got := repo.Get(a.hashId);
    assert got == Success(b);
  }

  /** A caller that updates twice (views 0, 3, 4) and lists the store. */
  method UpdateScenario(a: Link, b: Link)
    requires a.hashId != b.hashId && a.views == 0
  {
    var repo := new InMemoryLinkRepository();
    var created := repo.Create(a);
    var other := repo.Create(b);
    var three := repo.Update(a, 3);
    var four := repo.Update(three);
    assert four.views == 4;
    assert repo.insertion == [a.hashId, b.hashId];
    var all := repo.GetAll();
    assert all == [four, b];
  }
}
