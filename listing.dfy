/**
  Enumerations of a store's keys: what `os.listdir` returns for a directory
  and what Redis `KEYS` returns for a keyspace. Both list every key exactly
  once, in an order the repository does not control.
*/
module Listings {

  ghost predicate Distinct(s: seq<string>) {
    forall i, j :: 0 <= i < j < |s| ==> s[i] != s[j]
  }

  /** `listing` names every key of `keys` once and nothing else. */
  ghost predicate Enumerates(listing: seq<string>, keys: set<string>) {
    Distinct(listing) && (forall k :: k in listing <==> k in keys)
  }

  /** An enumeration is exactly as long as the set it enumerates. */
  lemma {:induction false} EnumerationSize(listing: seq<string>, keys: set<string>)
    requires Enumerates(listing, keys)
    ensures |listing| == |keys|
  {
    if listing != [] {
      var last := listing[|listing| - 1];
      var rest := listing[..|listing| - 1];
      assert listing == rest + [last];
      forall k ensures k in rest <==> k in keys - {last} {
        if k in rest {
          var i :| 0 <= i < |rest| && rest[i] == k;
          assert listing[i] == k && i < |listing| - 1;
        }
      }
      EnumerationSize(rest, keys - {last});
    }
  }
}
