# URL shortener, modelled in Dafny

The repository is one Python class, `UrlShortener` (`Shortener/Shortener.py`). It maps a long URL to
`base + the first length hex digits of SHA-256(url)`. It stores every mapping as a `(short, full)` row
in an SQLite table and resolves a short code to the `full` of the first matching row. Before it
shortens a URL it checks the URL's top-level domain against a text file of known domains.

This project models that class without the SQLite and file I/O, in five files:

- `wrappers.dfy`: `Option` and `Result`.
- `strings.dfy` (module `Strings`): the Python string operations the class uses. It has `sub in s`
  (`Contains`), `s.split(sep)` (`Split`, which is exact: it scans from the left and does not reuse
  characters, so `"a///b".split("//")` is `["a", "/b"]`) and `s.upper()` (`Upper`, ASCII only).
- `top_level_domain.dfy` (module `TopLevelDomain`): `_check_top_level_domain`. `Token(url)` is
  `url.split('//')[-1].split('/')[0].split('.')[-1]`. The check asks whether `Upper(Token(url))` is
  a substring of the text of the reference list. This is a substring test, so the empty token of
  `http://example./x` is accepted whatever the list holds. A port is not stripped:
  `http://example.com:8080/x` is checked with the token `COM:8080`.
- `base.dfy` (module `Base`): `_check_base`. A base with no `/` gets one appended. A base ending in
  `/` is kept. Any other base reaches `base.remove('/')`. A Python `str` has no `remove`, so that
  raises `AttributeError`, and nothing in `__init__` catches it. The model gives the error result
  `Failure(NoRemoveOnStr)`, and `Open` (the model of `__init__`) fails with it.
- `shortener.dfy` (module `Shortener`): the class. `rows: seq<Mapping>` stands for the table.
  `Shorten` appends a row for every accepted URL. It never deduplicates and never checks for
  collisions. `Original` scans the rows for the first match. `Lookup` is the pure function that
  `Original` is proved against. The lemmas relate appending and lookup: an earlier binding is never
  displaced, and a fresh code resolves back to its URL.

Parameters stand in for what the model does not compute:

- SHA-256 is the class's `sha256: string -> HexDigest`, passed to the constructor. `HexDigest` is
  a 64-character string of `0-9a-f`, so nothing but the digest's shape is assumed. The function is
  deterministic, so a fixed base and length always give the same code for the same URL.
- The reference list, `topleveldomains.txt`, is the argument `tldText` of `Shorten`. The source
  reads the file again on every call.
- The rows already in the table when the class is built are the constructor's `stored`, because
  the table is created only if absent.

Some behaviour of the code, stated plainly because the names suggest otherwise:

- The domain check tests whether the upper-cased token is a substring of the file's whole text. It
  is not a lookup in a set of lines, and it is case-sensitive on the file's side.
- A base that contains `/` but does not end with one is not normalised. The code raises
  `AttributeError` for it.
- `shorten` returns a plain string either way: the code, or the sentence `The top level domain is
  not valid.`. `Returned` maps the model's outcome to that string, and `Shorten` ensures that the
  string is the sentence exactly when the URL was rejected.
- The constructor's default base is `shortener.com/` (`DefaultBase`), which `_check_base` keeps
  as it is.

## Model

| member | source | states |
|---|---|---|
| `Strings.Contains` | Shortener/Shortener.py:65 | `Contains(s, sub)`, the model of Python's `sub in s`, holds exactly when `sub` occurs at some index of `s` |
| `Strings.EmptyIsContained` | Shortener/Shortener.py:65 | the empty string is a substring of every string |
| `Strings.Find` | Shortener/Shortener.py:64 | the result is the leftmost index where the separator occurs, or none when it occurs nowhere |
| `Strings.Split` | Shortener/Shortener.py:64 | a split always has at least one piece, so `[0]` and `[-1]` are defined |
| `Strings.SplitJoin` | Shortener/Shortener.py:64 | joining the pieces of `s.split(sep)` with `sep` gives back `s` |
| `Strings.SplitPiecesFree` | Shortener/Shortener.py:64 | no piece of a split contains the separator |
| `Strings.FirstPiece` | Shortener/Shortener.py:64 | `s.split(sep)[0]` is a prefix of `s` free of `sep`, no occurrence of `sep` in `s` starts inside it, and it is all of `s` when `sep` does not occur and otherwise followed by an occurrence: so it is the text before the leftmost occurrence |
| `Strings.LastPieceSuffix` | Shortener/Shortener.py:64 | `s.split(sep)[-1]` is a suffix of `s` that is all of `s` (no `sep` in `s`) or starts right after an occurrence of `sep` |
| `Strings.LastPieceCut` | Shortener/Shortener.py:64 | when `sep` occurs in `s`, the pieces of `s` are the pieces of the text before the last cut the left-to-right scan makes, followed by `s.split(sep)[-1]` |
| `Strings.LastPiece` | Shortener/Shortener.py:64 | `s.split(sep)[-1]` is a suffix of `s` free of `sep`; it is all of `s` when `sep` does not occur, and otherwise it starts right after an occurrence of `sep` and is the piece after the scan's last cut, as in `LastPieceCut` |
| `Strings.UpperChar` | Shortener/Shortener.py:65 | `a`..`z` map to `A`..`Z` in order; every other character is kept |
| `Strings.Upper` | Shortener/Shortener.py:65 | upper-casing keeps the length and upper-cases each character |
| `Strings.UpperIdempotent` | Shortener/Shortener.py:65 | upper-casing twice is upper-casing once, and leaves no lower-case ASCII letter |
| `TopLevelDomain.AfterScheme` | Shortener/Shortener.py:64 | `url.split('//')[-1]` is a suffix of the URL with no `//`: the whole URL when the URL has no `//`, and otherwise the text after the last cut the scan makes, which starts right after a `//` |
| `TopLevelDomain.Host` | Shortener/Shortener.py:64 | the host is the prefix of the text after the scheme up to its first `/`, or all of it, and contains no `/` |
| `TopLevelDomain.Token` | Shortener/Shortener.py:64 | the token is what follows the last `.` of the host, or the whole host when it has no `.` |
| `TopLevelDomain.CheckTopLevelDomain` | Shortener/Shortener.py:55-67 | the check accepts a URL exactly when the upper-cased token occurs somewhere in the reference text |
| `TopLevelDomain.EmptyTokenAccepted` | Shortener/Shortener.py:65-67 | a URL whose token is empty is accepted with any reference text |
| `TopLevelDomain.TrailingDotGivesEmptyToken` | Shortener/Shortener.py:64 | a host ending in `.` gives the empty token |
| `TopLevelDomain.AfterSchemeOf` | Shortener/Shortener.py:64 | for `scheme//rest`, with no `/` in the scheme and no `//` in `rest`, the text after the scheme is `rest` |
| `TopLevelDomain.HostOf` | Shortener/Shortener.py:64 | when the text after the scheme is `host/path` with no `/` in `host`, the host is `host` |
| `TopLevelDomain.TokenOf` | Shortener/Shortener.py:64 | when the host is `name.tld` with no `.` in `tld`, the token is `tld` |
| `TopLevelDomain.TokenOfUsualUrl` | Shortener/Shortener.py:64 | for `scheme//name.tld/path` the token is `tld`, including a port such as `com:8080` |
| `TopLevelDomain.TrailingDotAccepted` | Shortener/Shortener.py:64-67 | `scheme//name./path`, such as `http://example./x`, is accepted whatever the reference list holds |
| `Base.CheckBase` | Shortener/Shortener.py:79-89 | success exactly when the base has no `/` or ends with `/`; a successful result ends with `/`, extends the base by at most that one character, and is the base itself when the base already ends with `/` |
| `Base.CheckBaseIdempotent` | Shortener/Shortener.py:79-89 | normalising a normalised base changes nothing |
| `Base.CheckBaseSlashOptional` | Shortener/Shortener.py:79-89 | a base without `/` and the same base with `/` appended normalise to the same base |
| `Base.CheckBaseInnerSlashFails` | Shortener/Shortener.py:79-84 | a base with a `/` before a last character other than `/` fails with the `AttributeError` of `str.remove` |
| `Shortener.ShortCode` | Shortener/Shortener.py:26 | the code is the base followed by exactly `min(length, 64)` characters, each a hex digit taken in order from the digest |
| `Shortener.ShortCodeCollision` | Shortener/Shortener.py:26 | two digests give the same code exactly when they agree on the first `min(length, 64)` digits |
| `Shortener.CodeIsNotDomainMessage` | Shortener/Shortener.py:22-32 | with a normalised base, a code is never the domain error sentence |
| `Shortener.ReturnedIsUnambiguous` | Shortener/Shortener.py:22-32 | the string `shorten` returns is the error sentence exactly when the URL was rejected |
| `Shortener.FirstMatch` | Shortener/Shortener.py:42-44 | the index of the lowest row with the given short code, or none when no row has it |
| `Shortener.Lookup` | Shortener/Shortener.py:42-47 | a lookup finds nothing exactly when no row has the code, and otherwise gives the `full` of the lowest such row |
| `Shortener.LookupAfterAppend` | Shortener/Shortener.py:30-47 | appending a row keeps every answer a lookup already gave; a code with no answer before resolves to the appended row when it matches |
| `Shortener.RoundTrip` | Shortener/Shortener.py:30-47 | a code no earlier row had resolves, after the append, to the URL stored with it |
| `Shortener.UrlShortener.constructor` | Shortener/Shortener.py:6-12 | the base is the normalised base (so it ends with `/`), the hash is the given one, and the rows are those the table already held |
| `Shortener.UrlShortener.Shorten` | Shortener/Shortener.py:14-32 | a rejected URL gives the domain error and leaves the rows unchanged; an accepted one gives the code of `ShortCode` and appends exactly one row `(code, url)`, whatever rows already exist; the returned string is the domain error sentence exactly when the URL was rejected |
| `Shortener.UrlShortener.Original` | Shortener/Shortener.py:34-47 | the result is `Lookup` of the rows: the `full` of the first row with the code, or `None`; the rows are not modified |
| `Shortener.Open` | Shortener/Shortener.py:6-12 | fails exactly when `_check_base` raises, with that error; otherwise gives a new shortener over the normalised base and the stored rows; the default base `shortener.com/` is accepted unchanged |
| `Shortener.ShortenTwiceThenResolve` | Shortener/Shortener.py:14-47 | two `shorten` calls on one URL give the same outcome and, when accepted, two identical rows; `original` on the code then gives the first binding, which is the URL when the code was new |

## Left out

- The SQLite plumbing is not modelled: `sqlite3.connect`, the cursor, `commit`, the `CREATE TABLE IF NOT EXISTS` statement, the autoincrement `id` column and `close_connection`. This is I/O. The in-memory `rows` takes the table's place, and the rows held before construction are a parameter.
- `Original` scans the rows in insertion order. The source's `SELECT` has no `ORDER BY`, so SQLite's usual rowid order is assumed.
- The table name interpolated into the SQL text is not modelled. It only selects which table is used.
- Reading `topleveldomains.txt` is file I/O. Its contents are the argument `tldText`.
- SHA-256 and UTF-8 encoding are a foreign library call. They are the parameter `sha256`, constrained only to return 64 lower-case hex digits. Dafny strings here hold Unicode scalar values, so `url.encode('utf8')` cannot fail on them.
- The `except AttributeError` branch of `shorten` is not modelled. String inputs cannot reach it: the f-string never raises it, and a non-string `url` would already fail in `url.split`.
- The `print('Binding not found')` in `original` is output only. The model returns `None` as the source does.
- A negative `length` is excluded by the type `nat`, because Python slicing counts such a length from the end.
- `Strings.Upper` implements ASCII upper-casing only. Python's `str.upper` also maps non-ASCII letters, sometimes to several characters.
- `Strings.LastPieceSuffix` alone does not single out the piece: a later occurrence of `sep` also starts a suffix with its properties. `Strings.LastPieceCut` and `Strings.LastPiece` state which cut the piece follows.
