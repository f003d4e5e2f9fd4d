/**
 * Repository-host lookup: the domain of a repository URL, found by a
 * leftmost search for an HTTP(S) pattern and then for an SSH pattern, and
 * the access token configured for that domain.
 */
module Factory {
  import opened GitModel

  /** The end of the run of characters other than `stop` that begins at `k`. */
  function RunEnd(url: string, k: nat, stop: char): (j: nat)
    requires k <= |url|
    ensures k <= j <= |url| && (j == |url| || url[j] == stop)
    ensures forall m :: k <= m < j ==> url[m] != stop
    decreases |url| - k
  {
    if k == |url| || url[k] == stop then k else RunEnd(url, k + 1, stop)
  }

  /** Whether `url` holds `word` at position `i`. */
  predicate HasAt(url: string, i: nat, word: string) {
    i + |word| <= |url| && forall m :: 0 <= m < |word| ==> url[i + m] == word[m]
  }

  /** Where the host part begins after a scheme at `i`: `http://` or `https://`. */
  function SchemeEnd(url: string, i: nat): Option<nat> {
    if HasAt(url, i, "http://") then Some(i + 7)
    else if HasAt(url, i, "https://") then Some(i + 8)
    else None
  }

  /**
   * Where the group of `https?://(?:www\.)?([^/]+)` begins when the pattern
   * is anchored at `i`: the optional `www.` is taken when at least one
   * character other than `/` follows it; otherwise the group starts right
   * after the scheme, and it must hold at least one character.
   */
  function HostStart(url: string, i: nat): Option<nat> {
    match SchemeEnd(url, i)
    case None => None
    case Some(k) =>
      if HasAt(url, k, "www.") && k + 4 < |url| && url[k + 4] != '/' then Some(k + 4)
      else if k < |url| && url[k] != '/' then Some(k)
      else None
  }

  /** The HTTP(S) match anchored at `i`: the greedy run of characters other than `/`. */
  function HttpAt(url: string, i: nat): Option<string> {
    match HostStart(url, i)
    case None => None
    case Some(k) => if k <= |url| then Some(url[k..RunEnd(url, k, '/')]) else None
  }

  /** `git@([^:]+):` anchored at `i`: the greedy group must be followed by a colon. */
  function SshAt(url: string, i: nat): Option<string> {
    if !HasAt(url, i, "git@") then None
    else
      var j := RunEnd(url, i + 4, ':');
      if i + 4 < j < |url| then Some(url[i + 4..j]) else None
  }

  /** re.search for the HTTP(S) pattern: the leftmost position from `i` on at which it matches. */
  function HttpPos(url: string, i: nat): (r: Option<nat>)
    ensures r.Some? ==> i <= r.value <= |url| && HttpAt(url, r.value).Some?
    ensures r.Some? ==> forall m :: i <= m < r.value ==> HttpAt(url, m).None?
    ensures r.None? ==> forall m :: i <= m <= |url| ==> HttpAt(url, m).None?
    decreases |url| + 1 - i
  {
    if i > |url| then None
    else if HttpAt(url, i).Some? then Some(i)
    else HttpPos(url, i + 1)
  }

  function SshPos(url: string, i: nat): (r: Option<nat>)
    ensures r.Some? ==> i <= r.value <= |url| && SshAt(url, r.value).Some?
    ensures r.Some? ==> forall m :: i <= m < r.value ==> SshAt(url, m).None?
    ensures r.None? ==> forall m :: i <= m <= |url| ==> SshAt(url, m).None?
    decreases |url| + 1 - i
  {
    if i > |url| then None
    else if SshAt(url, i).Some? then Some(i)
    else SshPos(url, i + 1)
  }

  /** _extract_domain: the HTTP(S) pattern first, then the SSH pattern, else an error naming the URL. */
  function ExtractDomain(url: string): (r: Result<string, GitError>)
    ensures r.Err? ==> r.error == UnparsableUrl(url)
  {
    match HttpPos(url, 0)
    case Some(i) => Ok(HttpAt(url, i).value)
    case None =>
      match SshPos(url, 0)
      case Some(i) => Ok(SshAt(url, i).value)
      case None => Err(UnparsableUrl(url))
  }

  lemma HasAtChar(url: string, i: nat, word: string, m: nat)
    requires HasAt(url, i, word) && m < |word|
    ensures url[i + m] == word[m]
  {
  }

  /** Skipping characters other than `stop` does not move the end of the run. */
  lemma {:induction false} RunEndSkip(url: string, k: nat, j: nat, stop: char)
    requires k <= j <= |url| && forall m :: k <= m < j ==> url[m] != stop
    ensures RunEnd(url, k, stop) == RunEnd(url, j, stop)
    decreases j - k
  {
    if k < j {
      RunEndSkip(url, k + 1, j, stop);
    }
  }

  /**
   * A match of the HTTP(S) pattern is a non-empty run of the URL without `/`
   * that follows `://` or `://www.` and ends at a `/` or at the end.
   */
  lemma HttpMatchShape(url: string, i: nat)
    requires HttpAt(url, i).Some?
    ensures var k, d := HostStart(url, i).value, HttpAt(url, i).value;
      && |d| > 0 && (forall c :: c in d ==> c != '/')
      && k + |d| <= |url| && url[k..k + |d|] == d
      && ((3 <= k && HasAt(url, k - 3, "://")) || (7 <= k && HasAt(url, k - 7, "://www.")))
      && (k + |d| == |url| || url[k + |d|] == '/')
  {
    var e := SchemeEnd(url, i).value;
    SchemeColons(url, i);
    var k := HostStart(url, i).value;
    if k == e + 4 {
      WwwColons(url, e);
    }
    RunHasNoStop(url, k, '/');
  }

  /** A scheme match ends with `://`. */
  lemma SchemeColons(url: string, i: nat)
    requires SchemeEnd(url, i).Some?
    ensures var e := SchemeEnd(url, i).value; 3 <= e && HasAt(url, e - 3, "://")
  {
    var e := SchemeEnd(url, i).value;
    var scheme := if HasAt(url, i, "http://") then "http://" else "https://";
    forall m | 0 <= m < 3 ensures url[e - 3 + m] == "://"[m] {
      HasAtChar(url, i, scheme, |scheme| - 3 + m);
    }
  }

  /** `://` followed by `www.` is `://www.`. */
  lemma WwwColons(url: string, e: nat)
    requires 3 <= e && HasAt(url, e - 3, "://") && HasAt(url, e, "www.")
    ensures HasAt(url, e - 3, "://www.")
  {
    forall m | 0 <= m < 7 ensures url[e - 3 + m] == "://www."[m] {
      if m < 3 {
        HasAtChar(url, e - 3, "://", m);
      } else {
        HasAtChar(url, e, "www.", m - 3);
      }
    }
  }

  /** The run that begins at `k` holds no `stop`. */
  lemma RunHasNoStop(url: string, k: nat, stop: char)
    requires k <= |url|
    ensures forall c :: c in url[k..RunEnd(url, k, stop)] ==> c != stop
  {
    var d := url[k..RunEnd(url, k, stop)];
    forall c | c in d ensures c != stop {
      var m :| 0 <= m < |d| && d[m] == c;
      assert d[m] == url[k + m];
    }
  }

  /** A match of the SSH pattern is a non-empty run without `:` between `git@` and a `:`. */
  lemma SshMatchShape(url: string, i: nat)
    requires SshAt(url, i).Some?
    ensures var d := SshAt(url, i).value;
      && |d| > 0 && (forall c :: c in d ==> c != ':')
      && HasAt(url, i, "git@") && HasAt(url, i + 4, d) && HasAt(url, i + 4 + |d|, ":")
  {
    var d := SshAt(url, i).value;
    forall c | c in d ensures c != ':' {
      var m :| 0 <= m < |d| && d[m] == c;
      assert d[m] == url[i + 4 + m];
    }
  }

  /**
   * The domain is the leftmost HTTP(S) match if the pattern matches
   * anywhere; the SSH pattern is consulted only when the HTTP(S) pattern
   * matches nowhere; the error arises exactly when neither matches anywhere.
   */
  lemma ExtractDomainCases(url: string)
    ensures forall i :: 0 <= i <= |url| && HttpAt(url, i).Some? && (forall m :: 0 <= m < i ==> HttpAt(url, m).None?) ==>
              ExtractDomain(url) == Ok(HttpAt(url, i).value)
    ensures forall i :: 0 <= i <= |url| && SshAt(url, i).Some? && (forall m :: 0 <= m < i ==> SshAt(url, m).None?)
                        && (forall m :: 0 <= m <= |url| ==> HttpAt(url, m).None?) ==>
              ExtractDomain(url) == Ok(SshAt(url, i).value)
    ensures ExtractDomain(url).Err? <==>
              forall i :: 0 <= i <= |url| ==> HttpAt(url, i).None? && SshAt(url, i).None?
  {
  }

  /** A domain found is never empty; an HTTP(S) one holds no `/` and an SSH one no `:`. */
  lemma DomainShape(url: string)
    requires ExtractDomain(url).Ok?
    ensures |ExtractDomain(url).value| > 0
    ensures HttpPos(url, 0).Some? ==> forall c :: c in ExtractDomain(url).value ==> c != '/'
    ensures HttpPos(url, 0).None? ==> forall c :: c in ExtractDomain(url).value ==> c != ':'
  {
    if HttpPos(url, 0).Some? {
      HttpMatchShape(url, HttpPos(url, 0).value);
    } else {
      SshMatchShape(url, SshPos(url, 0).value);
    }
  }

  /** For an HTTP(S) URL whose host is followed by a path or nothing, the scheme is matched at the start. */
  lemma SchemeAtStart(scheme: string, host: string, rest: string)
    requires scheme == "http://" || scheme == "https://"
    ensures SchemeEnd(scheme + host + rest, 0) == Some(|scheme|)
  {
    var url := scheme + host + rest;
    assert HasAt(url, 0, scheme) by {
      forall m | 0 <= m < |scheme| ensures url[0 + m] == scheme[m] {
      }
    }
    if scheme == "https://" {
      assert url[4] != "http://"[4];
    }
  }

  /** The host of an HTTP(S) URL occupies the positions after the scheme, up to a `/` or the end. */
  lemma HostRun(scheme: string, host: string, rest: string)
    requires |host| > 0 && (forall c :: c in host ==> c != '/') && (rest == [] || rest[0] == '/')
    ensures var url, k := scheme + host + rest, |scheme|;
      && (forall m :: 0 <= m < |host| ==> url[k + m] == host[m])
      && (forall m :: k <= m < k + |host| ==> url[m] != '/')
      && RunEnd(url, k + |host|, '/') == k + |host|
  {
    var url, k := scheme + host + rest, |scheme|;
    var e := k + |host|;
    assert |url| == e + |rest|;
    forall m | 0 <= m < |host| ensures url[k + m] == host[m] {
      assert url[k + m] == (scheme + host)[k + m];
    }
    forall m | k <= m < e ensures url[m] != '/' {
      assert url[m] == (scheme + host)[m] == host[m - k];
      assert host[m - k] in host;
    }
    if rest != [] {
      assert url[e] == rest[0];
    }
  }

  lemma HttpHostWww(scheme: string, host: string, rest: string)
    requires SchemeEnd(scheme + host + rest, 0) == Some(|scheme|)
    requires |host| > 4 && HasAt(host, 0, "www.")
    requires (forall c :: c in host ==> c != '/') && (rest == [] || rest[0] == '/')
    ensures HttpAt(scheme + host + rest, 0) == Some(host[4..])
  {
    var url, k := scheme + host + rest, |scheme|;
    var e := k + |host|;
    HostRun(scheme, host, rest);
    assert HasAt(url, k, "www.") by {
      forall m | 0 <= m < 4 ensures url[k + m] == "www."[m] {
        HasAtChar(host, 0, "www.", m);
      }
    }
    assert url[k + 4] == host[4];
    RunEndSkip(url, k + 4, e, '/');
    assert url[k + 4..e] == host[4..];
  }

  lemma HttpHostPlain(scheme: string, host: string, rest: string)
    requires SchemeEnd(scheme + host + rest, 0) == Some(|scheme|)
    requires |host| > 0 && !(|host| > 4 && HasAt(host, 0, "www."))
    requires (forall c :: c in host ==> c != '/') && (rest == [] || rest[0] == '/')
    ensures HttpAt(scheme + host + rest, 0) == Some(host)
  {
    var url, k := scheme + host + rest, |scheme|;
    var e := k + |host|;
    HostRun(scheme, host, rest);
    assert !(HasAt(url, k, "www.") && k + 4 < |url| && url[k + 4] != '/') by {
      if |host| > 4 {
        var m :| 0 <= m < 4 && host[m] != "www."[m];
        assert url[k + m] != "www."[m];
      } else if e < |url| && e < k + 4 {
        assert url[k + (e - k)] != "www."[e - k];
      }
    }
    RunEndSkip(url, k, e, '/');
    assert url[k..e] == host;
  }

  /**
   * For `http://` or `https://`, then a host without `/`, then nothing or a
   * path, the domain is the host, less a leading `www.` when something
   * follows that `www.`.
   */
  lemma HttpHost(scheme: string, host: string, rest: string)
    requires scheme == "http://" || scheme == "https://"
    requires |host| > 0 && (forall c :: c in host ==> c != '/') && (rest == [] || rest[0] == '/')
    ensures ExtractDomain(scheme + host + rest) ==
              Ok(if |host| > 4 && HasAt(host, 0, "www.") then host[4..] else host)
  {
    SchemeAtStart(scheme, host, rest);
    if |host| > 4 && HasAt(host, 0, "www.") {
      HttpHostWww(scheme, host, rest);
    } else {
      HttpHostPlain(scheme, host, rest);
    }
  }

  /** In `git@` + host + `:` + rest with no other colon, the one colon follows the host. */
  lemma OnlyColon(host: string, rest: string)
    requires (forall c :: c in host ==> c != ':') && (forall c :: c in rest ==> c != ':')
    ensures var url := "git@" + host + ":" + rest;
      forall m :: 0 <= m < |url| && m != 4 + |host| ==> url[m] != ':'
  {
    var url := "git@" + host + ":" + rest;
    forall m | 0 <= m < |url| && m != 4 + |host| ensures url[m] != ':' {
      if m < 4 {
        assert url[m] == "git@"[m];
      } else if m < 4 + |host| {
        assert url[m] == host[m - 4] && host[m - 4] in host;
      } else {
        assert url[m] == rest[m - 5 - |host|] && rest[m - 5 - |host|] in rest;
      }
    }
  }

  /**
   * For `git@`, a host without `:`, a colon, and a path without a colon
   * that does not begin with `/`, the HTTP(S) pattern matches nowhere and the
   * domain is the host.
   */
  lemma SshHost(host: string, rest: string)
    requires |host| > 0 && (forall c :: c in host ==> c != ':')
    requires (forall c :: c in rest ==> c != ':') && (rest == [] || rest[0] != '/')
    ensures ExtractDomain("git@" + host + ":" + rest) == Ok(host)
  {
    var url := "git@" + host + ":" + rest;
    var e := 4 + |host|;
    assert url[e] == ':';
    OnlyColon(host, rest);
    forall i | 0 <= i <= |url| ensures !HasAt(url, i, "http://") && !HasAt(url, i, "https://") {
      if i + 7 <= |url| {
        if i + 4 != e {
          assert url[i + 4] != "http://"[4];
        } else {
          assert url[i + 5] == rest[0] && url[i + 5] != "http://"[5];
        }
      }
      if i + 8 <= |url| {
        if i + 5 != e {
          assert url[i + 5] != "https://"[5];
        } else {
          assert url[i + 6] == rest[0] && url[i + 6] != "https://"[6];
        }
      }
    }
    assert HasAt(url, 0, "git@") by {
      forall m | 0 <= m < 4 ensures url[0 + m] == "git@"[m] {
      }
    }
    forall m | 4 <= m < e ensures url[m] != ':' {
      assert url[m] == host[m - 4] && host[m - 4] in host;
    }
    RunEndSkip(url, 4, e, ':');
    assert url[4..e] == host;
  }

  /** A host written as `www.` and a name begins with `www.` and leaves the name once that is dropped. */
  lemma WwwPrefix(name: string)
    ensures HasAt("www." + name, 0, "www.") && ("www." + name)[4..] == name
  {
  }

  /** `https://www.gitee.com/...` gives `gitee.com`: the `www.` is dropped. */
  lemma WwwDropped(u: string)
    requires u == "https://" + ("www." + "gitee.com") + "/user/repo.git"
    ensures ExtractDomain(u) == Ok("gitee.com")
  {
    WwwPrefix("gitee.com");
    HttpHost("https://", "www." + "gitee.com", "/user/repo.git");
  }

  /** `http://www./x` gives `www.`: with nothing but `/` after it, the `www.` is the host itself. */
  lemma WwwKept(v: string)
    requires v == "http://" + "www." + "/x"
    ensures ExtractDomain(v) == Ok("www.")
  {
    HttpHost("http://", "www.", "/x");
  }

  /** The HTTPS form of a GitHub repository URL gives `github.com`. */
  lemma HttpsExample(u: string)
    requires u == "https://" + "github.com" + "/user/repo.git"
    ensures ExtractDomain(u) == Ok("github.com")
  {
    assert "github.com"[0] != "www."[0];
    HttpHost("https://", "github.com", "/user/repo.git");
  }

  /** The SSH form of the same repository gives `github.com` too. */
  lemma SshExample(v: string)
    requires v == "git@" + "github.com" + ":" + "user/repo.git"
    ensures ExtractDomain(v) == Ok("github.com")
  {
    SshHost("github.com", "user/repo.git");
  }

  // ---------------------------------------------------------------------
  // Tokens.

  /** DOMAIN_TOKEN_MAP: the environment variable holding the token of each supported host. */
  function TokenVar(domain: string): (v: Option<string>)
    ensures v.Some? <==> domain in {"github.com", "gitee.com", "gitlab.com"}
  {
    if domain == "github.com" then Some("GITHUB_TOKEN")
    else if domain == "gitee.com" then Some("GITEE_TOKEN")
    else if domain == "gitlab.com" then Some("GITLAB_TOKEN")
    else None
  }

  /** _get_token_for_domain over an explicit environment: unset variables and unmapped hosts give none. */
  function TokenForDomain(domain: string, env: map<string, string>): (t: Option<string>)
    ensures t.Some? ==> TokenVar(domain).Some? && TokenVar(domain).value in env && t.value == env[TokenVar(domain).value]
  {
    match TokenVar(domain)
    case None => None
    case Some(name) => if name in env then Some(env[name]) else None
  }

  /** The three hosts read their own variables; any other host has no token whatever the environment holds. */
  lemma TokenCases(env: map<string, string>, domain: string)
    ensures TokenForDomain("github.com", env) == (if "GITHUB_TOKEN" in env then Some(env["GITHUB_TOKEN"]) else None)
    ensures TokenForDomain("gitee.com", env) == (if "GITEE_TOKEN" in env then Some(env["GITEE_TOKEN"]) else None)
    ensures TokenForDomain("gitlab.com", env) == (if "GITLAB_TOKEN" in env then Some(env["GITLAB_TOKEN"]) else None)
    ensures domain !in {"github.com", "gitee.com", "gitlab.com"} ==> TokenForDomain(domain, env) == None
  {
  }

  /** The token of github.com comes from its variable; an unsupported host gets none. */
  lemma TokenExamples(u: string)
    requires u == "https://" + "unsupported.com" + "/user/repo.git"
    ensures TokenForDomain("github.com", map["GITHUB_TOKEN" := "test_token"]) == Some("test_token")
    ensures ExtractDomain(u) == Ok("unsupported.com") && TokenForDomain("unsupported.com", map[]) == None
  {
    assert "unsupported.com"[0] != "www."[0];
    HttpHost("https://", "unsupported.com", "/user/repo.git");
  }
}
