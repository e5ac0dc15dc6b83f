/** Canonical form of a source-article link (`normalize_source_url`). The
    canonical string is the key of the "already posted" ledger, so the same
    article must always map to the same key.

    A URL is taken apart only as far as the script needs: the scheme, the
    network location (host, possibly with user info and port) and everything
    after it, which is carried through untouched. */
module SourceUrl {
  import opened Basics

  datatype Url = Url(scheme: string, netloc: string, rest: string)

  const CanonicalSourceHost: string := "jp.pronews.com"

  /** Host spellings that are rewritten to the canonical source host. */
  const SourceHostAliases: set<string> := {"pronews.jp", "www.pronews.jp", "ko.pronews.com"}

  predicate HasHttpScheme(s: string) {
    StartsWith(s, "http://") || StartsWith(s, "https://")
  }

  /** The network location ends at the first of these characters. */
  predicate EndsNetloc(c: char) {
    c == '/' || c == '?' || c == '#'
  }

  predicate WellFormed(u: Url) {
    && (u.scheme == "http" || u.scheme == "https")
    && HostShape(u.netloc)
    && (|u.rest| == 0 || EndsNetloc(u.rest[0]))
  }

  /** `urlparse` of a string that already starts with an http(s) scheme. */
  function Parse(s: string): (u: Url)
    requires HasHttpScheme(s)
    ensures WellFormed(u)
  {
    var scheme := if StartsWith(s, "https://") then "https" else "http";
    var after := s[|scheme| + 3..];
    var n := IndexWhere(after, EndsNetloc);
    Url(scheme, after[..n], after[n..])
  }

  /** `geturl()`: the three parts written back one after the other. */
  function Render(u: Url): string {
    SchemePrefix(u.scheme) + u.netloc + u.rest
  }

  /** The scheme with its "://" separator. */
  function SchemePrefix(scheme: string): string {
    if scheme == "https" then "https://" else if scheme == "http" then "http://" else scheme + "://"
  }

  lemma RenderParse(s: string)
    requires HasHttpScheme(s)
    ensures Render(Parse(s)) == s
  {
    if StartsWith(s, "https://") {
      assert s == "https://" + s[8..];
    } else {
      assert s[..7] == "http://";
      assert s == "http://" + s[7..];
    }
  }

  lemma ParseRender(u: Url)
    requires WellFormed(u)
    ensures HasHttpScheme(Render(u))
    ensures Parse(Render(u)) == u
  {
    if u.scheme == "https" {
      ParseRenderHttps(u);
    } else {
      ParseRenderHttp(u);
    }
  }

  lemma ParseRenderHttps(u: Url)
    requires WellFormed(u) && u.scheme == "https"
    ensures HasHttpScheme(Render(u)) && Parse(Render(u)) == u
  {
    var after := u.netloc + u.rest;
    var s := "https://" + after;
    assert Render(u) == s;
    HttpsPrefix(after);
    SplitsAtNetloc(u);
  }

  lemma ParseRenderHttp(u: Url)
    requires WellFormed(u) && u.scheme == "http"
    ensures HasHttpScheme(Render(u)) && Parse(Render(u)) == u
  {
    var after := u.netloc + u.rest;
    var s := "http://" + after;
    assert Render(u) == s;
    HttpPrefix(after);
    SplitsAtNetloc(u);
  }

  /** What follows the scheme splits back into the network location and the rest. */
  lemma SplitsAtNetloc(u: Url)
    requires WellFormed(u)
    ensures var after := u.netloc + u.rest;
            var n := IndexWhere(after, EndsNetloc);
            after[..n] == u.netloc && after[n..] == u.rest
  {
    var after := u.netloc + u.rest;
    IndexWhereIs(after, EndsNetloc, |u.netloc|);
    assert after[..|u.netloc|] == u.netloc;
    assert after[|u.netloc|..] == u.rest;
  }

  lemma HttpsPrefix(after: string)
    ensures var s := "https://" + after;
            StartsWith(s, "https://") && s[8..] == after
  {
    var s := "https://" + after;
    assert s[..8] == "https://";
  }

  lemma HttpPrefix(after: string)
    ensures var s := "http://" + after;
            StartsWith(s, "http://") && !StartsWith(s, "https://") && s[7..] == after
  {
    var s := "http://" + after;
    assert s[..7] == "http://";
    assert s[4] == ':';
    assert |s| >= 8 ==> s[..8][4] != "https://"[4];
  }

  /** The host rule: lower-case, drop one leading "www.", map the aliases. */
  function CanonicalHost(netloc: string): (h: string)
    ensures IsLower(h)
    ensures h !in SourceHostAliases
    ensures HostShape(netloc) ==> HostShape(h)
    ensures EndsClean(netloc) ==> EndsClean(h)
  {
    var lowered := Lower(netloc);
    var bare := if StartsWith(lowered, "www.") then lowered[4..] else lowered;
    LowerKeepsHostShape(netloc);
    LowerIsLower(netloc);
    SuffixKeepsHostShape(lowered, |lowered| - |bare|);
    SourceHostIsCanonical();
    if bare in SourceHostAliases then CanonicalSourceHost else bare
  }

  /** The canonical host is itself in canonical form. */
  lemma SourceHostIsCanonical()
    ensures IsLower(CanonicalSourceHost) && HostShape(CanonicalSourceHost) && EndsClean(CanonicalSourceHost)
    ensures CanonicalSourceHost !in SourceHostAliases
  {
    assert CanonicalSourceHost[0] == 'j';
    assert "www.pronews.jp"[0] == 'w' && "ko.pronews.com"[0] == 'k';
  }

  /** Nothing in s would end a network location. */
  predicate HostShape(s: string) {
    (forall k :: 0 <= k < |s| ==> !EndsNetloc(s[k]))
  }

  lemma LowerKeepsHostShape(s: string)
    ensures HostShape(s) ==> HostShape(Lower(s))
    ensures EndsClean(s) ==> EndsClean(Lower(s))
  {
  }

  lemma SuffixKeepsHostShape(s: string, i: nat)
    requires i <= |s|
    ensures HostShape(s) ==> HostShape(s[i..])
    ensures EndsClean(s) ==> EndsClean(s[i..])
    ensures IsLower(s) ==> IsLower(s[i..])
  {
    if HostShape(s) {
      forall k | 0 <= k < |s| - i ensures !EndsNetloc(s[i..][k]) {
        assert s[i..][k] == s[i + k];
      }
    }
    if IsLower(s) {
      forall k | 0 <= k < |s| - i ensures !('A' <= s[i..][k] <= 'Z') {
        assert s[i..][k] == s[i + k];
      }
    }
  }

  lemma AliasHostsBecomeSourceHost(netloc: string)
    ensures Lower(netloc) in SourceHostAliases ==> CanonicalHost(netloc) == CanonicalSourceHost
  {
    var lowered := Lower(netloc);
    if lowered == "www.pronews.jp" {
      assert StartsWith(lowered, "www.") && lowered[4..] == "pronews.jp";
    } else if lowered == "pronews.jp" || lowered == "ko.pronews.com" {
      assert lowered[..4][0] != "www."[0];
    }
  }

  /** The string handed to `urlparse`: stripped, with "https://" put in front
      (after dropping leading slashes) when no http(s) scheme is present. */
  function WithScheme(raw: string): (s: string)
    ensures HasHttpScheme(s)
  {
    var t := Strip(raw);
    if HasHttpScheme(t) then t else "https://" + DropLeadingSlashes(t)
  }

  /** `normalize_source_url`. What the key looks like once parsed is stated
      by `KeyShape`. */
  function NormalizeSourceUrl(raw: string): (key: string)
    ensures raw == [] <==> key == []
    ensures raw != [] ==> HasHttpScheme(key)
  {
    if raw == [] then []
    else
      var u := Parse(WithScheme(raw));
      ParseRender(u.(netloc := CanonicalHost(u.netloc)));
      Render(u.(netloc := CanonicalHost(u.netloc)))
  }

  /** A key keeps the scheme and everything after the host; its host is
      lower-case and not an alias spelling, and an alias host becomes the
      canonical source host. */
  lemma KeyShape(raw: string)
    requires raw != []
    ensures var u := Parse(WithScheme(raw));
            var v := Parse(NormalizeSourceUrl(raw));
            && IsLower(v.netloc) && v.netloc !in SourceHostAliases
            && v.scheme == u.scheme && v.rest == u.rest
            && (Lower(u.netloc) in SourceHostAliases ==> v.netloc == CanonicalSourceHost)
  {
    var u := Parse(WithScheme(raw));
    ParseRender(u.(netloc := CanonicalHost(u.netloc)));
    AliasHostsBecomeSourceHost(u.netloc);
  }

  lemma WithSchemeEndsClean(raw: string)
    ensures EndsClean(WithScheme(raw))
  {
    var t := Strip(raw);
    if !HasHttpScheme(t) {
      var d := DropLeadingSlashes(t);
      var s := "https://" + d;
      if |d| == 0 {
        assert s == "https://";
      } else {
        assert s[|s| - 1] == d[|d| - 1] == t[|t| - 1];
      }
    }
  }

  lemma PartsEndClean(s: string)
    requires HasHttpScheme(s) && EndsClean(s)
    ensures EndsClean(Parse(s).rest)
    ensures |Parse(s).rest| == 0 ==> EndsClean(Parse(s).netloc)
  {
    var u := Parse(s);
    var lead := SchemePrefix(u.scheme) + u.netloc;
    RenderParse(s);
    assert s == lead + u.rest;
    if |u.rest| == 0 {
      if |u.netloc| > 0 {
        assert u.netloc[|u.netloc| - 1] == lead[|lead| - 1] == s[|s| - 1];
      }
    } else {
      assert u.rest[|u.rest| - 1] == s[|s| - 1];
    }
  }

  lemma RenderTrimmed(u: Url)
    requires WellFormed(u)
    requires EndsClean(u.rest) && (|u.rest| == 0 ==> EndsClean(u.netloc))
    ensures Trimmed(Render(u))
  {
    var key := Render(u);
    var prefix := SchemePrefix(u.scheme);
    var lead := prefix + u.netloc;
    assert key == lead + u.rest;
    assert key[0] == prefix[0] == 'h';
    if |u.rest| == 0 {
      if |u.netloc| == 0 {
        assert key == prefix && key[|key| - 1] == '/';
      } else {
        assert key[|key| - 1] == u.netloc[|u.netloc| - 1];
      }
    } else {
      assert key[|key| - 1] == u.rest[|u.rest| - 1];
    }
  }

  /** A key ends in what the stripped input ended in, so `strip` leaves it alone. */
  lemma KeyIsTrimmed(raw: string)
    requires raw != []
    ensures Trimmed(NormalizeSourceUrl(raw))
  {
    var u := Parse(WithScheme(raw));
    WithSchemeEndsClean(raw);
    PartsEndClean(WithScheme(raw));
    RenderTrimmed(u.(netloc := CanonicalHost(u.netloc)));
  }

  /** Re-normalising a key gives the key back, unless the key's host still
      starts with "www." (an input host that began "www.www."): only one
      "www." is dropped per pass. */
  lemma NormalizeIdempotent(raw: string)
    requires raw == [] || !StartsWith(Parse(NormalizeSourceUrl(raw)).netloc, "www.")
    ensures NormalizeSourceUrl(NormalizeSourceUrl(raw)) == NormalizeSourceUrl(raw)
  {
    if raw != [] {
      var key := NormalizeSourceUrl(raw);
      var u := Parse(WithScheme(raw));
      var v := u.(netloc := CanonicalHost(u.netloc));
      assert key == Render(v);
      ParseRender(v);
      KeyIsTrimmed(raw);
      assert WithScheme(key) == key;
      LowerIsLower(v.netloc);
      assert CanonicalHost(v.netloc) == v.netloc;
    }
  }

  lemma ParseHostAndPath(host: string, path: string)
    requires HostShape(host)
    requires |path| > 0 && path[0] == '/'
    ensures HasHttpScheme("https://" + host + path)
    ensures Parse("https://" + host + path) == Url("https", host, path)
  {
    ParseRender(Url("https", host, path));
    assert Render(Url("https", host, path)) == "https://" + host + path;
  }

  /** A link that already has the https scheme and no surrounding whitespace
      keeps its path; only its host is canonicalised. */
  lemma NormalizeHttpsLink(host: string, path: string)
    requires HostShape(host)
    requires |path| > 0 && path[0] == '/' && !IsSpace(path[|path| - 1])
    ensures NormalizeSourceUrl("https://" + host + path) == "https://" + CanonicalHost(host) + path
  {
    var s := "https://" + host + path;
    HttpsLinkParses(host, path);
    assert NormalizeSourceUrl(s) == Render(Url("https", CanonicalHost(host), path));
  }

  lemma HttpsLinkParses(host: string, path: string)
    requires HostShape(host)
    requires |path| > 0 && path[0] == '/' && !IsSpace(path[|path| - 1])
    ensures WithScheme("https://" + host + path) == "https://" + host + path
    ensures Parse("https://" + host + path) == Url("https", host, path)
  {
    var s := "https://" + host + path;
    assert Trimmed(s) by {
      assert s == "https://" + (host + path);
      assert s[0] == 'h' && s[|s| - 1] == path[|path| - 1];
    }
    ParseHostAndPath(host, path);
  }

  /** Putting "www." in front of a lower-case host that is not an alias
      spelling: the host rule takes it off again. */
  lemma DropWww(name: string)
    requires IsLower(name) && name !in SourceHostAliases
    ensures IsLower("www." + name)
    ensures HostShape(name) ==> HostShape("www." + name)
    ensures CanonicalHost("www." + name) == name
  {
    var host := "www." + name;
    assert forall k :: 4 <= k < |host| ==> host[k] == name[k - 4];
    LowerIsLower(host);
    assert host[..4] == "www." && host[4..] == name;
  }

  /** Why `NormalizeIdempotent` needs its exclusion: a doubled "www." loses
      one copy per pass, so normalising the key again yields another key. */
  lemma DoubleWwwKeyChangesOnRenormalising(name: string, path: string)
    requires IsLower(name) && HostShape(name)
    requires name !in SourceHostAliases && "www." + name !in SourceHostAliases
    requires |path| > 0 && path[0] == '/' && !IsSpace(path[|path| - 1])
    ensures var once := "www." + name;
            && NormalizeSourceUrl("https://" + ("www." + once) + path) == "https://" + once + path
            && NormalizeSourceUrl("https://" + once + path) == "https://" + name + path
  {
    var once := "www." + name;
    DropWww(name);
    DropWww(once);
    NormalizeHttpsLink("www." + once, path);
    NormalizeHttpsLink(once, path);
  }
}
