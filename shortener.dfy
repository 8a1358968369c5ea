/**
 * The `UrlShortener` class: a table of (short, full) rows, a normalised
 * base, `shorten`, which appends a row for every accepted URL, and
 * `original`, which returns the full URL of the first row with a given
 * short code.
 */
module Shortener {
  import opened Wrappers
  import opened TopLevelDomain
  import opened Base

  predicate IsHexDigit(c: char) {
    '0' <= c <= '9' || 'a' <= c <= 'f'
  }

  /** What `hashlib.sha256(...).hexdigest()` returns: 64 lower-case hexadecimal digits. */
  type HexDigest = s: string | |s| == 64 && forall i :: 0 <= i < |s| ==> IsHexDigit(s[i])
    witness seq(64, _ => '0')

  /** One row of the table: the columns `short` and `full`. */
  datatype Mapping = Mapping(short: string, full: string)

  /**
   * What `shorten` reports. The source returns a plain string either way:
   * the code, or the sentence `DomainMessage`.
   */
  datatype ShortenOutcome = Shortened(code: string) | InvalidDomain

  const DomainMessage := "The top level domain is not valid."

  /** The `base_url` the constructor uses when none is given. */
  const DefaultBase := "shortener.com/"

  /** The string `shorten` returns in the source for an outcome. */
  function Returned(o: ShortenOutcome): string {
    match o
    case Shortened(code) => code
    case InvalidDomain => DomainMessage
  }

  function Min(a: int, b: int): int {
    if a < b then a else b
  }

  /**
   * `f"{base}{digest[:length]}"`: the base followed by the first `length`
   * hexadecimal digits of the digest, all 64 when `length` exceeds 64.
   */
  function ShortCode(base: string, digest: HexDigest, length: nat): (code: string)
    ensures |code| == |base| + Min(length, 64)
    ensures code[..|base|] == base
    ensures forall i :: |base| <= i < |code| ==> code[i] == digest[i - |base|] && IsHexDigit(code[i])
  {
    base + digest[..Min(length, 64)]
  }

  /**
   * Two digests give the same code exactly when they agree on the digits
   * the code keeps: the source has no collision check beyond this.
   */
  lemma ShortCodeCollision(base: string, d1: HexDigest, d2: HexDigest, length: nat)
    ensures ShortCode(base, d1, length) == ShortCode(base, d2, length) <==>
      d1[..Min(length, 64)] == d2[..Min(length, 64)]
  {
    var c1, c2 := ShortCode(base, d1, length), ShortCode(base, d2, length);
    assert c1[|base|..] == d1[..Min(length, 64)];
    assert c2[|base|..] == d2[..Min(length, 64)];
  }

  /**
   * With a normalised base a code never equals the domain error sentence,
   * since it ends with `/` or a hexadecimal digit and the sentence with `.`.
   */
  lemma CodeIsNotDomainMessage(base: string, digest: HexDigest, length: nat)
    requires EndsWithSlash(base)
    ensures ShortCode(base, digest, length) != DomainMessage
  {
    var code := ShortCode(base, digest, length);
    assert DomainMessage[|DomainMessage| - 1] == '.';
    if Min(length, 64) > 0 {
      assert IsHexDigit(code[|code| - 1]);
    } else {
      assert code == base;
    }
  }

  /** So a caller can tell the two kinds of returned string apart. */
  lemma ReturnedIsUnambiguous(base: string, digest: HexDigest, length: nat, o: ShortenOutcome)
    requires EndsWithSlash(base)
    requires o == InvalidDomain || o == Shortened(ShortCode(base, digest, length))
    ensures Returned(o) == DomainMessage <==> o == InvalidDomain
  {
    if o.Shortened? {
      CodeIsNotDomainMessage(base, digest, length);
    }
  }

  /** The index of the first row whose short code is `short`. */
  function FirstMatch(rows: seq<Mapping>, short: string): (r: Option<nat>)
    ensures r.Some? ==> r.value < |rows| && rows[r.value].short == short
    ensures r.Some? ==> forall j :: 0 <= j < r.value ==> rows[j].short != short
    ensures r.None? ==> forall j :: 0 <= j < |rows| ==> rows[j].short != short
  {
    if rows == [] then None
    else if rows[0].short == short then Some(0)
    else match FirstMatch(rows[1..], short)
      case None => None
      case Some(i) => Some(i + 1)
  }

  /**
   * `SELECT full ... WHERE short = ?` followed by `fetchone()`: nothing
   * exactly when no row has the code, and otherwise the full URL of the
   * first row, in insertion order, with that short code.
   */
  function Lookup(rows: seq<Mapping>, short: string): (r: Option<string>)
    ensures r.None? <==> forall j :: 0 <= j < |rows| ==> rows[j].short != short
    ensures forall i :: 0 <= i < |rows| && rows[i].short == short ==>
      ((forall j :: 0 <= j < i ==> rows[j].short != short) ==> r == Some(rows[i].full))
  {
    match FirstMatch(rows, short)
    case None => None
    case Some(i) => Some(rows[i].full)
  }

  /**
   * Appending a row never changes an answer `Lookup` already gives, and
   * makes a code that had none resolve to the appended row.
   */
  lemma {:induction false} LookupAfterAppend(rows: seq<Mapping>, m: Mapping, short: string)
    ensures Lookup(rows + [m], short) ==
      if Lookup(rows, short).Some? then Lookup(rows, short)
      else if m.short == short then Some(m.full)
      else None
  {
    if rows != [] && rows[0].short != short {
      LookupAfterAppend(rows[1..], m, short);
      assert (rows + [m])[1..] == rows[1..] + [m];
    }
  }

  /** Round trip: a fresh code resolves to the URL it was appended with. */
  lemma RoundTrip(rows: seq<Mapping>, code: string, url: string)
    requires Lookup(rows, code).None?
    ensures Lookup(rows + [Mapping(code, url)], code) == Some(url)
  {
    LookupAfterAppend(rows, Mapping(code, url), code);
  }

  /**
   * The shortener. `rows` stands for the SQLite table; `sha256` for
   * `hashlib.sha256(url.encode('utf8')).hexdigest()`, which is taken as a
   * parameter so that nothing but its shape is assumed.
   */
  class UrlShortener {
    const base: string
    const sha256: string -> HexDigest
    var rows: seq<Mapping>

    /** The base was normalised by `CheckBase`. */
    ghost predicate Valid() {
      EndsWithSlash(base)
    }

    /**
     * `__init__` once `_check_base` has succeeded; `stored` is what the
     * table already held, since it is only created if absent.
     */
    constructor (sha256: string -> HexDigest, stored: seq<Mapping>, baseUrl: string := DefaultBase)
      requires CheckBase(baseUrl).Success?
      ensures Valid()
      ensures base == CheckBase(baseUrl).value && this.sha256 == sha256 && rows == stored
    {
      base := CheckBase(baseUrl).value;
      this.sha256 := sha256;
      rows := stored;
    }

    /**
     * `shorten(url, length)`, with `tldText` the contents of the reference
     * list at the moment of the call: a rejected URL leaves the table
     * alone, an accepted one always gets a new row.
     */
    method Shorten(url: string, tldText: string, length: nat := 6) returns (r: ShortenOutcome)
      requires Valid()
      modifies this`rows
      ensures Returned(r) == DomainMessage <==> r == InvalidDomain
      ensures !CheckTopLevelDomain(url, tldText) ==> r == InvalidDomain && rows == old(rows)
      ensures CheckTopLevelDomain(url, tldText) ==>
        && r == Shortened(ShortCode(base, sha256(url), length))
        && rows == old(rows) + [Mapping(r.code, url)]
    {
      if !CheckTopLevelDomain(url, tldText) {
        return InvalidDomain;
      }
      var short := base + sha256(url)[..Min(length, 64)];
      CodeIsNotDomainMessage(base, sha256(url), length);
      rows := rows + [Mapping(short, url)];
      return Shortened(short);
    }

    /** `original(short)`: the full URL of the first row with that code, or `None`. */
    method Original(short: string) returns (r: Option<string>)
      ensures r == Lookup(rows, short)
    {
      var i := 0;
      while i < |rows|
        invariant 0 <= i <= |rows|
        invariant forall j :: 0 <= j < i ==> rows[j].short != short
      {
        if rows[i].short == short {
          return Some(rows[i].full);
        }
        i := i + 1;
      }
      return None;
    }
  }

  /**
   * `UrlShortener(...)`: fails with the error `_check_base` raises, and
   * otherwise gives a shortener over the stored rows.
   */
  method Open(sha256: string -> HexDigest, stored: seq<Mapping>, baseUrl: string := DefaultBase)
    returns (r: Result<UrlShortener, BaseError>)
    ensures r.Failure? <==> CheckBase(baseUrl).Failure?
    ensures r.Failure? ==> r.error == CheckBase(baseUrl).error
    ensures r.Success? ==> fresh(r.value) && r.value.Valid()
    ensures r.Success? ==> r.value.base == CheckBase(baseUrl).value && r.value.rows == stored
    ensures r.Success? ==> r.value.sha256 == sha256
    ensures baseUrl == DefaultBase ==> r.Success? && r.value.base == DefaultBase
  {
    match CheckBase(baseUrl)
    case Failure(e) =>
      return Failure(e);
    case Success(_) =>
      var s := new UrlShortener(sha256, stored, baseUrl);
      return Success(s);
  }

  /**
   * What a caller sees from two `shorten` calls on the same URL followed by
   * `original` on the code: the same outcome twice, two identical rows, and
   * the URL back when no earlier row had that code.
   */
  method ShortenTwiceThenResolve(s: UrlShortener, url: string, tldText: string, length: nat)
    returns (first: ShortenOutcome, second: ShortenOutcome, resolved: Option<string>)
    requires s.Valid()
    modifies s`rows
    ensures first == second
    ensures first == InvalidDomain <==> !CheckTopLevelDomain(url, tldText)
    ensures first == InvalidDomain ==> s.rows == old(s.rows) && resolved == None
    ensures first.Shortened? ==> first.code == ShortCode(s.base, s.sha256(url), length)
    ensures first.Shortened? ==> s.rows == old(s.rows) + [Mapping(first.code, url), Mapping(first.code, url)]
    ensures first.Shortened? ==> resolved == Lookup(old(s.rows) + [Mapping(first.code, url)], first.code)
    ensures first.Shortened? && Lookup(old(s.rows), first.code).None? ==> resolved == Some(url)
  {
    ghost var before := s.rows;
    first := s.Shorten(url, tldText, length);
    ghost var between := s.rows;
    second := s.Shorten(url, tldText, length);
    if first.InvalidDomain? {
      return first, second, None;
    }
    var code := first.code;
    assert s.rows == before + [Mapping(code, url), Mapping(code, url)] by {
      assert between == before + [Mapping(code, url)];
      assert s.rows == between + [Mapping(code, url)];
    }
    resolved := s.Original(code);
    LookupAfterAppend(before, Mapping(code, url), code);
    LookupAfterAppend(before + [Mapping(code, url)], Mapping(code, url), code);
  }
}
