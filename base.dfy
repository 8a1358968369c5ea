/**
 * `UrlShortener._check_base`, run once by the constructor on the
 * configured base URL.
 */
module Base {
  import opened Wrappers

  /**
   * The one way `_check_base` fails: a base that holds a `/` but does not
   * end with one reaches `base.remove('/')`, and a Python `str` has no
   * `remove`, so the call raises `AttributeError`.
   */
  datatype BaseError = NoRemoveOnStr

  predicate EndsWithSlash(s: string) {
    |s| > 0 && s[|s| - 1] == '/'
  }

  /**
   * The normalised base: a base without `/` gets one appended, a base that
   * ends with `/` is kept, and any other base is an error.
   */
  function CheckBase(base: string): (r: Result<string, BaseError>)
    ensures r.Success? <==> '/' !in base || EndsWithSlash(base)
    ensures r.Success? ==> EndsWithSlash(r.value)
    ensures r.Success? ==> |base| <= |r.value| <= |base| + 1 && r.value[..|base|] == base
    ensures r.Success? && EndsWithSlash(base) ==> r.value == base
  {
    if '/' in base then
      if base[|base| - 1] == '/' then Success(base) else Failure(NoRemoveOnStr)
    else
      Success(base + "/")
  }

  /** A normalised base is normalised already. */
  lemma CheckBaseIdempotent(base: string)
    requires CheckBase(base).Success?
    ensures CheckBase(CheckBase(base).value) == CheckBase(base)
  {
  }

  /** A base without `/` normalises to the same base as the same text with `/` appended. */
  lemma CheckBaseSlashOptional(base: string)
    requires '/' !in base
    ensures CheckBase(base) == CheckBase(base + "/") == Success(base + "/")
  {
  }

  /** A base with a `/` before its last character fails, e.g. `shortener.com/x`. */
  lemma CheckBaseInnerSlashFails(base: string, i: nat)
    requires i < |base| - 1 && base[i] == '/' && base[|base| - 1] != '/'
    ensures CheckBase(base) == Failure(NoRemoveOnStr)
  {
  }
}
