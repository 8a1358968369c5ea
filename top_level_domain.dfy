/**
 * The top-level-domain check of `UrlShortener._check_top_level_domain`:
 * `url.split('//')[-1].split('/')[0].split('.')[-1]`, upper-cased, must be
 * a substring of the text of the reference list of top-level domains.
 */
module TopLevelDomain {
  import opened Strings

  /**
   * `url.split('//')[-1]`: the URL without its scheme. It is a suffix of
   * the URL free of `//`: the whole URL when the URL has no `//`, and
   * otherwise the text after the last cut the left-to-right scan makes.
   */
  function AfterScheme(url: string): (a: string)
    ensures |a| <= |url| && a == url[|url| - |a|..]
    ensures Free(a, "//")
    ensures Free(url, "//") ==> a == url
    ensures !Free(url, "//") ==> OccursAt(url, "//", |url| - |a| - 2) && LastCut(url, "//", a)
  {
    LastPiece(url, "//");
    Last(Split(url, "//"))
  }

  /**
   * `AfterScheme(url).split('/')[0]`: the host part, the prefix of the text
   * after the scheme up to its first `/`, or all of it when it has none.
   */
  function Host(url: string): (h: string)
    ensures var a := AfterScheme(url);
      && |h| <= |a| && h == a[..|h|]
      && '/' !in h
      && (|h| == |a| || a[|h|] == '/')
  {
    var a := AfterScheme(url);
    var h := Split(a, "/")[0];
    FirstPiece(a, "/");
    FreeChar(h, '/');
    if h != a then
      OccursAtChar(a, '/', |h|);
      h
    else h
  }

  /**
   * `Host(url).split('.')[-1]`: the token compared with the reference list,
   * what follows the last `.` of the host, or the whole host when the host
   * has no `.`.
   */
  function Token(url: string): (t: string)
    ensures var h := Host(url);
      && |t| <= |h| && t == h[|h| - |t|..]
      && '.' !in t
      && ('.' !in h ==> t == h)
      && ('.' in h ==> h[|h| - |t| - 1] == '.')
  {
    var h := Host(url);
    var t := Last(Split(h, "."));
    LastPiece(h, ".");
    FreeChar(t, '.');
    FreeChar(h, '.');
    if t != h || '.' in h then
      OccursAtChar(h, '.', |h| - |t| - 1);
      t
    else t
  }

  /**
   * `_check_top_level_domain(url)` where `refText` is what
   * `document.read()` returns for the reference list. It accepts exactly
   * the URLs whose upper-cased token occurs somewhere in the reference
   * text, as a substring and not as a whole line.
   */
  function CheckTopLevelDomain(url: string, refText: string): (ok: bool)
    ensures ok <==> exists i :: OccursAt(refText, Upper(Token(url)), i)
  {
    Contains(refText, Upper(Token(url)))
  }

  /** An empty token is accepted whatever the reference text holds. */
  lemma EmptyTokenAccepted(url: string, refText: string)
    requires Token(url) == ""
    ensures CheckTopLevelDomain(url, refText)
  {
    EmptyIsContained(refText);
  }

  /** A host that ends in `.`, as in `http://example./x`, gives the empty token. */
  lemma TrailingDotGivesEmptyToken(url: string)
    requires |Host(url)| > 0 && Host(url)[|Host(url)| - 1] == '.'
    ensures Token(url) == ""
  {
  }

  /** For `scheme + "//" + rest` with no `/` in the scheme and no `//` in `rest`, the text after the scheme is `rest`. */
  lemma AfterSchemeOf(scheme: string, rest: string)
    requires '/' !in scheme && Free(rest, "//")
    ensures AfterScheme(scheme + "//" + rest) == rest
  {
    var url := scheme + "//" + rest;
    assert OccursAt(url, "//", |scheme|) by {
      assert url[|scheme|..|scheme| + 2] == "//";
    }
    var j := Find(url, "//").value;
    assert url[j] == '/' by {
      assert url[j..j + 2][0] == url[j];
    }
    assert j == |scheme|;
    assert url[j + 2..] == rest;
    assert Split(rest, "//") == [rest];
    assert Split(url, "//") == [url[..j]] + [rest];
  }

  /** For `host + "/" + path` with no `/` in the host, the host part is `host`. */
  lemma HostOf(url: string, host: string, path: string)
    requires AfterScheme(url) == host + "/" + path && '/' !in host
    ensures Host(url) == host
  {
    var a, h := AfterScheme(url), Host(url);
    assert a[|host|] == '/';
  }

  /** For a host `name + "." + tld` with no `.` in `tld`, the token is `tld`. */
  lemma TokenOf(url: string, name: string, tld: string)
    requires Host(url) == name + "." + tld && '.' !in tld
    ensures Token(url) == tld
  {
    var h, t := Host(url), Token(url);
    assert h[|name|] == '.';
    assert t == h[|h| - |tld|..];
  }

  /**
   * For a URL of the usual shape `scheme//name.tld/path`, the token is
   * `tld`; a port (`tld` = `com:8080`) is not stripped, and an empty `tld`
   * (`http://example./x`) gives the empty token.
   */
  lemma TokenOfUsualUrl(scheme: string, name: string, tld: string, path: string)
    requires '/' !in scheme && '/' !in name && '/' !in tld && '.' !in tld
    requires Free(name + "." + tld + "/" + path, "//")
    ensures Token(scheme + "//" + name + "." + tld + "/" + path) == tld
  {
    var host := name + "." + tld;
    var rest := host + "/" + path;
    var url := scheme + "//" + rest;
    assert url == scheme + "//" + name + "." + tld + "/" + path;
    assert rest == name + "." + tld + "/" + path;
    AfterSchemeOf(scheme, rest);
    assert '/' !in host by {
      forall i | 0 <= i < |host| ensures host[i] != '/' {
        if i < |name| { assert host[i] == name[i]; }
        else if i > |name| { assert host[i] == tld[i - |name| - 1]; }
      }
    }
    HostOf(url, host, path);
    TokenOf(url, name, tld);
  }

  /** So a usual URL whose host ends in `.` is accepted whatever the reference list holds. */
  lemma TrailingDotAccepted(scheme: string, name: string, path: string, refText: string)
    requires '/' !in scheme && '/' !in name
    requires Free(name + "." + "/" + path, "//")
    ensures CheckTopLevelDomain(scheme + "//" + name + "." + "/" + path, refText)
  {
    assert name + "." + "" + "/" + path == name + "." + "/" + path;
    assert scheme + "//" + name + "." + "" + "/" + path == scheme + "//" + name + "." + "/" + path;
    TokenOfUsualUrl(scheme, name, "", path);
    EmptyTokenAccepted(scheme + "//" + name + "." + "/" + path, refText);
  }
}
