# URL shortener: link repositories and the short-id hash

A Dafny model of the core of a small URL-shortening service. It covers two
parts.

- **Link repositories** (`repo_students.py`). The `Link` record has url,
  hash id, creation time and view count, and a serialiser pair
  `to_dict` / `from_dict`. Three stores share one get / create / update
  contract, and two of them also have delete:
  - `InMemoryLinkRepository` keeps a dictionary keyed by hash id. It
    overwrites on create and update. Looking up an unknown key raises
    `KeyError`.
  - `FileSystemLinkRepository` keeps one file `<hash_id>.txt` per link. Its
    create is exclusive, its update rewrites the whole file, and its delete
    reports whether the file existed.
  - `RedisLinkRepository` keeps one key per link. SET is unconditional, a
    missing key reads as `None`, and DEL answers 0 or 1.
- **The short-id generator** `short` (`app.py`). It is a polynomial rolling
  hash with base 31 and modulus 1 000 000 009, run over the input with every
  `/` removed.

Files:

- `links.dfy` (module `Links`): the link record, its dictionary form, and
  `from_dict`'s error cases.
- `listing.dfy` (module `Listings`): what a directory listing or a `KEYS`
  answer is.
- `memory_store.dfy`, `filesystem_store.dfy`, `redis_store.dfy`: one class
  per store.
- `shortener.dfy` (module `Shortener`): the hash.

How the model represents the source:

- Each store is a class. Its storage is a field that the methods reassign: a
  `map` plus the dictionary's insertion order for the in-memory store, a map
  from file name to document for the directory, and a map from key to
  document for the Redis keyspace.
- What a store holds is the `to_dict` document, a map from field name to a
  JSON string or integer. The JSON text around it is not modelled.
- Exceptions become `Failure` values of a `Result`: `KeyError`,
  `FileExistsError`, `FileNotFoundError`, `ValueError`, and `TypeError` for
  a document field of the wrong JSON type.
- The order of `os.listdir` and of Redis `KEYS` is a parameter `listing`.
  The lemmas assume it names every key exactly once (`Listings.Enumerates`).
- `short` is a method with a loop. Its invariants tie the two accumulators
  to the closed form `Shortener.PolynomialHash`.

Behaviour of the code worth knowing:

- The filesystem store's create does not overwrite: it fails on a duplicate.
- The Redis `delete` returns a count, not a boolean.
- `views` is any integer; nothing keeps it non-negative.
- `update` stores the link even when its key was never created.

## Model

| member | source | states |
|---|---|---|
| Links.NewLink | repo_students.py:12-17 | a new link has the given url, hash id and time, and 0 views |
| Links.Bumped | repo_students.py:79 | the updated link has exactly `add_views` more views; url, hash id and time are unchanged |
| Links.ToDict | repo_students.py:19-22 | the document has exactly the keys url, hash_id, created_at and views; created_at holds the ISO text of the time |
| Links.TextField | repo_students.py:27-29 | `d[key]` raises KeyError for an absent key and yields the string for a text value; a value that is not text gives TypeError(key) |
| Links.IsoFormat | repo_students.py:21 | `isoformat()` produces non-empty text that `FromIsoFormat` accepts |
| Links.FromIsoFormat | repo_students.py:29 | the timestamp text is accepted exactly when it is well formed; otherwise ValueError |
| Links.IsoRoundTrip | repo_students.py:21-29 | the time `from_dict` parses back from the text `to_dict` wrote is the same instant |
| Links.FromDict | repo_students.py:24-31 | a document decodes exactly when it has url, hash_id and a well-formed created_at; the fields are copied; views is 0 when the key is absent; a missing url or hash_id is reported as KeyError for that key, in argument order |
| Links.RoundTrip | repo_students.py:19-31 | for every link, `from_dict(to_dict(l))` gives back `l`, field for field |
| Listings.EnumerationSize | repo_students.py:108 | a listing that names every key once is as long as the set of keys |
| InMemoryStore.InMemoryLinkRepository.constructor | repo_students.py:57-58 | a new store is empty |
| InMemoryStore.InMemoryLinkRepository.GetAll | repo_students.py:68-70 | `get()` returns one link per key, the stored one, in first-insertion order, and every stored link appears |
| InMemoryStore.InMemoryLinkRepository.Get | repo_students.py:68-72 | `get(h)` returns the link stored under `h`, or KeyError(h) when `h` is not a key |
| InMemoryStore.InMemoryLinkRepository.Put | repo_students.py:75 | assigning a key replaces its value, leaves every other key untouched, and appends the key to the order only if it is new |
| InMemoryStore.InMemoryLinkRepository.Create | repo_students.py:74-76 | create returns the link; afterwards it is stored under its hash id, replacing any earlier entry; every other key is unchanged |
| InMemoryStore.InMemoryLinkRepository.Update | repo_students.py:78-81 | update returns the link with `add_views` (default 1) more views and stores it under its hash id; every other key is unchanged |
| FileSystemStore.FileName | repo_students.py:91 | a link's file name is its hash id followed by `.txt` |
| FileSystemStore.RemoveSuffix | repo_students.py:109 | `removesuffix` drops a trailing suffix and otherwise leaves the name alone |
| FileSystemStore.RemoveSuffixOfFileName | repo_students.py:109-115 | stripping `.txt` from a link's file name gives back its hash id |
| FileSystemStore.FileNameOfRemoveSuffix | repo_students.py:109-115 | a name ending in `.txt` is the file name of what stripping leaves |
| FileSystemStore.ReadSingle | repo_students.py:114-118 | reading a hash id fails with FileNotFoundError when `<hash_id>.txt` is missing, and otherwise decodes that file |
| FileSystemStore.ReadListed | repo_students.py:109-110 | a listed name ending in `.txt` reads exactly that file (FileNotFoundError if absent); any other name reads `<name>.txt` instead |
| FileSystemStore.ReadBackWritten | repo_students.py:90-118 | a file written for a link reads back as that link |
| FileSystemStore.WritingKeepsOwned | repo_students.py:90-124 | create and update keep every file decodable and named after the hash id inside it |
| FileSystemStore.DeletingKeepsOwned | repo_students.py:126-132 | removing a file keeps every remaining file owned, so create, update and delete all keep the invariant |
| FileSystemStore.ListingOwned | repo_students.py:103-118 | on a directory the store wrote, `get()` reads one link per file; each link's hash id is the file name with `.txt` stripped |
| FileSystemStore.StrayFileIsNotFound | repo_students.py:108-115 | for every listed name lacking `.txt`, `get()` opens `<name>.txt` and fails with FileNotFoundError when that file is absent |
| FileSystemStore.FileSystemLinkRepository.constructor | repo_students.py:85-88 | the store opens a directory with whatever files it already holds |
| FileSystemStore.FileSystemLinkRepository.Create | repo_students.py:90-93 | create fails with FileExistsError when `<hash_id>.txt` exists and leaves the directory as it was; otherwise it adds exactly that file, holding `to_dict(link)` |
| FileSystemStore.FileSystemLinkRepository.ReadSingleLink | repo_students.py:114-118 | the read agrees with `ReadSingle` on the current directory |
| FileSystemStore.FileSystemLinkRepository.Get | repo_students.py:103-105 | `get(h)` agrees with `ReadSingle`: FileNotFoundError when the file is missing, otherwise the decoded file |
| FileSystemStore.FileSystemLinkRepository.GetAll | repo_students.py:106-112 | `get()` succeeds exactly when every listed file reads; it then returns one link per entry, in listing order; otherwise it returns the error of the first entry that fails |
| FileSystemStore.FileSystemLinkRepository.Update | repo_students.py:120-124 | update returns the link with `add_views` (default 1) more views and overwrites exactly its file with the new document |
| FileSystemStore.FileSystemLinkRepository.Delete | repo_students.py:126-132 | delete returns true exactly when the file existed; afterwards the file is gone and nothing else changed |
| RedisStore.ReadSingle | repo_students.py:155-161 | an absent key reads as None rather than an error; a present key yields its decoded link or the decoding error |
| RedisStore.ReadBackSet | repo_students.py:139-161 | a key set for a link reads back as that link |
| RedisStore.SettingKeepsOwned | repo_students.py:139-166 | create and update keep every value decodable and stored under the hash id inside it |
| RedisStore.DeletingKeepsOwned | repo_students.py:168-169 | deleting a key keeps every remaining value owned, so create, update and delete all keep the invariant |
| RedisStore.ListingOwned | repo_students.py:143-161 | on a keyspace the store wrote, `get()` reads one link, never None, per key; the key is that link's hash id |
| RedisStore.RedisLinkRepository.constructor | repo_students.py:136-137 | the store connects to a keyspace with whatever keys it already holds |
| RedisStore.RedisLinkRepository.Create | repo_students.py:139-141 | create returns the link and sets its key unconditionally; every other key is unchanged |
| RedisStore.RedisLinkRepository.ReadSingleLink | repo_students.py:155-161 | the read agrees with `ReadSingle` on the current keyspace |
| RedisStore.RedisLinkRepository.Get | repo_students.py:143-145 | `get(h)` agrees with `ReadSingle`: None for an absent key, never an error for a missing key |
| RedisStore.RedisLinkRepository.GetAll | repo_students.py:146-153 | `get()` succeeds exactly when every listed key reads; it then returns one entry per key, in listing order; otherwise it returns the first decoding error |
| RedisStore.RedisLinkRepository.Update | repo_students.py:163-166 | update returns the link with `add_views` (default 1) more views and sets exactly its key |
| RedisStore.RedisLinkRepository.Delete | repo_students.py:168-169 | delete answers 1 when the key existed and 0 otherwise; afterwards the key is absent and nothing else changed |
| Shortener.Clean | app.py:49 | the cleaned input contains no `/` and is no longer than the input |
| Shortener.CleanAppend | app.py:49 | removing `/` distributes over concatenation |
| Shortener.CleanKeepsSlashFree | app.py:49 | input without `/` is left as it is |
| Shortener.CleanAllSlashes | app.py:49 | input made only of `/` cleans to the empty string |
| Shortener.Offset | app.py:55 | `ord(c) - ord("a") + 1` is 1 to 26 for `a` to `z`, at most 0 below `a`, and above 26 past `z` |
| Shortener.PolynomialHash | app.py:48-57 | the closed form lies in `[0, 1000000009)` |
| Shortener.ReducedStep | app.py:55-56 | reducing modulo m after every step gives the same residues as reducing once at the end |
| Shortener.IntermediatesAreExact | app.py:51-56 | every sum and product the loop forms lies strictly between -2^53 and 2^53, so the float arithmetic is exact |
| Shortener.Short | app.py:48-57 | `short(s)` equals the sum of `(ord(c_i) - ord('a') + 1) * 31^i` over the cleaned input, reduced modulo 1000000009; its invariants keep `p_pow == 31^i mod m` |
| Shortener.HashOfCleaned | app.py:49 | hashing the cleaned input gives the same value as hashing the input |
| Shortener.SlashIgnored | app.py:49 | inserting a `/` anywhere does not change the hash |
| Shortener.SlashesOnlyHashToZero | app.py:49-57 | the empty input, and input made only of `/`, hash to 0 |
| Shortener.WorkedValues | app.py:52-57 | `short("a") == 1` and `short("ab") == 63` |
| Shortener.DigitHashesToNegativeResidue | app.py:55 | a digit's term is negative, yet `short("0")` is the non-negative residue 1000000009 - 48 |
| Shortener.Collision | app.py:55 | two different inputs, `"a"` and ``"a`"``, get the same short id |

## Left out

- `LinkRepository`, the abstract base class with overloaded `get`
  (repo_students.py:34-53), is not a Dafny type of its own. The three
  classes share method names instead. Each `get` overload is split into
  `Get(hash_id)` and `GetAll(listing)`.
- Links.Bumped: `link.views += add_views` changes the caller's `Link` object
  in place. The model treats a link as a value and returns the bumped copy.
  The in-memory store keeps the caller's very object, so that object can be
  changed later through the caller's own reference. This aliasing is not
  modelled.
- Links.TextField: a value that is not text gives `TypeError(key)`; Python's
  `d[key]` returns any value and never raises this.
- Links.FromDict: a field of the wrong JSON type gives `TypeError(key)`.
  Python's dataclass would store a url, hash_id or views of any type
  unchecked; only a non-string created_at raises TypeError in
  `fromisoformat`.
- Links.IsoFormat: ISO-8601 is replaced by the decimal tick count of an
  `Instant`. Its only property used here, that parsing inverts formatting,
  is proved for the stand-in. Time zones and calendar fields are not
  modelled.
- JSON text encoding: stores hold the document, not its text, so failures
  of `json.load` on malformed text are not modelled.
- RedisStore.ReadSingle: Redis values are documents, which are never empty.
  Python's `if link_json:` would also read an empty value written by another
  client as None; that case is not modelled.
- Redis keys come back as bytes and are decoded; the model keeps keys as
  strings.
- Real file and network I/O are replaced by the in-model maps. This covers
  `os.mkdir` of the `db` directory, `os.path.join` (including hash ids that
  contain path separators), and the Redis connection parameters. The
  module-level singleton (repo_students.py:172) is not modelled either.
- The order of `os.listdir` and `KEYS` is a parameter, not a modelled
  property of the system.
- Concurrency and the atomicity of file and Redis operations are not
  modelled; the code has none.
- The Flask routes, templates, flash messages and form handling (app.py:1-45,
  60-61) are not modelled. This includes the call at app.py:42 that passes a
  string to `update`.
- Shortener.Short: its result is an `int`. Python returns a float, so a
  hash id built from it would read like `"63.0"`; that is not modelled.
