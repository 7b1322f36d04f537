/**
  The `Link` record of the URL shortener and its serialiser pair `to_dict` /
  `from_dict`: a link is turned into a four-field dictionary (the document
  that the filesystem and Redis stores write out as JSON) and read back.

  The ISO-8601 text of `created_at` is represented by the decimal count of
  ticks of an `Instant`; `IsoFormat` and `FromIsoFormat` are proved to be
  mutual inverses, which is the only property of ISO-8601 that the
  repository layer relies on.
*/
module Links {

  /** The exceptions the repository layer lets escape, one per Python class. */
  datatype Error =
    | KeyError(key: string)           // a dictionary lookup on an absent key
    | ValueError                      // `fromisoformat` rejected the timestamp text
    | TypeError(key: string)          // a document field of the wrong JSON type
    | FileExistsError(name: string)   // `open(..., "x")` on an existing file
    | FileNotFoundError(name: string) // `open(...)` for reading on a missing file

  datatype Result<+T> = Success(value: T) | Failure(error: Error)

  datatype Option<+T> = None | Some(value: T)

  /** A point in time, counted in ticks (microseconds) from a fixed epoch. */
  datatype Instant = Instant(ticks: nat)

  predicate IsDigit(c: char) {
    '0' <= c <= '9'
  }

  predicate AllDigits(s: string) {
    forall i :: 0 <= i < |s| ==> IsDigit(s[i])
  }

  function DigitChar(d: nat): (c: char)
    requires d < 10
    ensures IsDigit(c) && c as int - '0' as int == d
  {
    ('0' as int + d) as char
  }

  /** Decimal text of `n`, most significant digit first, without leading zeros. */
  function Decimal(n: nat): (s: string)
    ensures 0 < |s| && AllDigits(s)
    ensures n < 10 <==> |s| == 1
  {
    if n < 10 then [DigitChar(n)] else Decimal(n / 10) + [DigitChar(n % 10)]
  }

  /** The number a string of decimal digits denotes. */
  function DecimalValue(s: string): nat
    requires AllDigits(s)
  {
    if s == [] then 0
    else DecimalValue(s[..|s| - 1]) * 10 + (s[|s| - 1] as int - '0' as int)
  }

  lemma {:induction false} DecimalValueOfDecimal(n: nat)
    ensures DecimalValue(Decimal(n)) == n
  {
    if n >= 10 {
      var s := Decimal(n);
      assert s[..|s| - 1] == Decimal(n / 10);
      DecimalValueOfDecimal(n / 10);
    }
  }

  /** `datetime.isoformat`, as the decimal tick count. */
  function IsoFormat(t: Instant): (s: string)
    ensures 0 < |s| && AllDigits(s)
  {
    Decimal(t.ticks)
  }

  /** `datetime.fromisoformat`: rejects (ValueError) text that is empty or not all digits. */
  function FromIsoFormat(s: string): (r: Result<Instant>)
    ensures r.Success? <==> 0 < |s| && AllDigits(s)
    ensures r.Failure? ==> r.error == ValueError
  {
    if 0 < |s| && AllDigits(s) then Success(Instant(DecimalValue(s))) else Failure(ValueError)
  }

  lemma IsoRoundTrip(t: Instant)
    ensures FromIsoFormat(IsoFormat(t)) == Success(t)
  {
    DecimalValueOfDecimal(t.ticks);
  }

  /** The JSON values that occur in a serialised link. */
  datatype Json = JString(str: string) | JInt(num: int)

  /** A JSON object: the dictionary `to_dict` builds and `from_dict` reads. */
  type Doc = map<string, Json>

  datatype Link = Link(url: string, hashId: string, createdAt: Instant, views: int)

  /** `Link(url, hash_id, created_at)`: the dataclass default for `views` is 0. */
  function NewLink(url: string, hashId: string, createdAt: Instant): (l: Link)
    ensures l.url == url && l.hashId == hashId && l.createdAt == createdAt
    ensures l.views == 0
  {
    Link(url, hashId, createdAt, 0)
  }

  /** `link.views += add_views`: the link every `update` stores and returns. */
  function Bumped(l: Link, addViews: int): (r: Link)
    ensures r.url == l.url && r.hashId == l.hashId && r.createdAt == l.createdAt
    ensures r.views - l.views == addViews
  {
    l.(views := l.views + addViews)
  }

  /** `Link.to_dict`: all four fields, the timestamp as its ISO text. */
  function ToDict(l: Link): (d: Doc)
    ensures d.Keys == {"url", "hash_id", "created_at", "views"}
    ensures d["url"] == JString(l.url) && d["hash_id"] == JString(l.hashId)
    ensures d["created_at"] == JString(IsoFormat(l.createdAt))
    ensures d["views"] == JInt(l.views)
  {
    map["url" := JString(l.url), "hash_id" := JString(l.hashId),
        "created_at" := JString(IsoFormat(l.createdAt)), "views" := JInt(l.views)]
  }

  /** Reads a text field that `from_dict` indexes with `d[key]`. */
  function TextField(d: Doc, key: string): (r: Result<string>)
    ensures key !in d ==> r == Failure(KeyError(key))
    ensures key in d && d[key].JString? ==> r == Success(d[key].str)
    ensures key in d && !d[key].JString? ==> r == Failure(TypeError(key))
  {
    if key !in d then Failure(KeyError(key))
    else if d[key].JString? then Success(d[key].str)
    else Failure(TypeError(key))
  }

  /** Whether `from_dict` accepts `d`. */
  predicate Decodable(d: Doc) {
    && "url" in d && d["url"].JString?
    && "hash_id" in d && d["hash_id"].JString?
    && "created_at" in d && d["created_at"].JString?
    && FromIsoFormat(d["created_at"].str).Success?
    && ("views" in d ==> d["views"].JInt?)
  }

  /**
    `Link.from_dict`: the keyword arguments are evaluated in the order url,
    hash_id, created_at, views, so the first absent key is the one reported;
    `views` is read with `get("views", 0)`.
  */
  function FromDict(d: Doc): (r: Result<Link>)
    ensures r.Success? <==> Decodable(d)
    ensures r.Success? ==> && r.value.url == d["url"].str
                           && r.value.hashId == d["hash_id"].str
                           && FromIsoFormat(d["created_at"].str) == Success(r.value.createdAt)
    ensures r.Success? ==> r.value.views == (if "views" in d then d["views"].num else 0)
    ensures "url" !in d ==> r == Failure(KeyError("url"))
    ensures "url" in d && d["url"].JString? && "hash_id" !in d ==> r == Failure(KeyError("hash_id"))
  {
    match TextField(d, "url")
    case Failure(e) => Failure(e)
    case Success(url) =>
      match TextField(d, "hash_id")
      case Failure(e) => Failure(e)
      case Success(hashId) =>
        match TextField(d, "created_at")
        case Failure(e) => Failure(e)
        case Success(iso) =>
          match FromIsoFormat(iso)
          case Failure(e) => Failure(e)
          case Success(createdAt) =>
            if "views" !in d then Success(Link(url, hashId, createdAt, 0))
            else if d["views"].JInt? then Success(Link(url, hashId, createdAt, d["views"].num))
            else Failure(TypeError("views"))
  }

  /** Serialising and reading back gives the same link, field for field. */
  lemma RoundTrip(l: Link)
    ensures FromDict(ToDict(l)) == Success(l)
  {
    IsoRoundTrip(l.createdAt);
  }
}
