/**
 * The URL clean-up shared by both extensions:
 * `url.replace(/^(https?:\/\/)?(www\.)?/, '').split('/')[0]`, written out as
 * optional-prefix stripping. The regular expression is anchored and both
 * groups are optional, so each group is taken exactly when it is present.
 */
module UrlClean {
  import opened Text

  /** The `(https?:\/\/)?` group: drop a leading "https://" or "http://". */
  function StripScheme(s: string): (r: string)
    ensures StartsWith(s, "https://") ==> r == s[8..]
    ensures !StartsWith(s, "https://") && StartsWith(s, "http://") ==> r == s[7..]
    ensures !StartsWith(s, "https://") && !StartsWith(s, "http://") ==> r == s
  {
    if StartsWith(s, "https://") then s[8..]
    else if StartsWith(s, "http://") then s[7..]
    else s
  }

  /** The `(www\.)?` group: drop a leading "www.". */
  function StripWww(s: string): (r: string)
    ensures StartsWith(s, "www.") ==> r == s[4..]
    ensures !StartsWith(s, "www.") ==> r == s
  {
    if StartsWith(s, "www.") then s[4..] else s
  }

  /** The index of the first '/' in s, or |s| when there is none. */
  function SlashIndex(s: string): (k: nat)
    ensures k <= |s| && (k == |s| || s[k] == '/')
    ensures forall i :: 0 <= i < k ==> s[i] != '/'
  {
    if |s| == 0 || s[0] == '/' then 0 else 1 + SlashIndex(s[1..])
  }

  /** `s.split('/')[0]`: the longest prefix of s without a '/'. */
  function BeforeSlash(s: string): (r: string)
    ensures '/' !in r
  {
    s[..SlashIndex(s)]
  }

  /** The clean-up without lower-casing (extension/popup/popup.js). */
  function CleanHost(s: string): string
  {
    BeforeSlash(StripWww(StripScheme(s)))
  }

  /** The clean-up after `toLowerCase()` (extension-local). */
  function CleanLowerHost(s: string): string
  {
    CleanHost(ToLower(s))
  }

  lemma {:induction false} SlashIndexOf(host: string, path: string)
    requires '/' !in host
    requires path == "" || path[0] == '/'
    ensures SlashIndex(host + path) == |host|
    decreases |host|
  {
    if |host| > 0 {
      assert host[0] in host;
      assert (host + path)[1..] == host[1..] + path;
      SlashIndexOf(host[1..], path);
    }
  }

  lemma BeforeSlashOf(host: string, path: string)
    requires '/' !in host
    requires path == "" || path[0] == '/'
    ensures BeforeSlash(host + path) == host
  {
    SlashIndexOf(host, path);
    assert (host + path)[..|host|] == host;
  }

  /** A host followed by a path does not look like a scheme. */
  lemma NoSchemeBeforeHost(host: string, path: string)
    requires '/' !in host && host != "http:" && host != "https:"
    requires path == "" || path[0] == '/'
    ensures !StartsWith(host + path, "http://") && !StartsWith(host + path, "https://")
  {
    var x := host + path;
    assert x[..|host|] == host;
    if |host| >= 7 {
      assert x[6] == host[6] && host[6] in host;
      assert x[5] == host[5] && host[5] in host;
    } else if |host| == 6 {
      assert x[5] == host[5] && host[5] in host;
      assert x[..6] == host;
    } else if |host| == 5 {
      assert x[..5] == host;
    }
  }

  /** A host that does not start with "www." keeps not doing so when a path follows. */
  lemma NoWwwBeforeHost(host: string, path: string)
    requires '/' !in host && !StartsWith(host, "www.")
    requires path == "" || path[0] == '/'
    ensures !StartsWith(host + path, "www.")
  {
    var x := host + path;
    if |host| >= 4 {
      assert x[..4] == host[..4];
    } else if path != "" {
      assert x[|host|] == '/';
    }
  }

  lemma StripSchemeOf(scheme: string, rest: string)
    requires scheme == "" || scheme == "http://" || scheme == "https://"
    requires !StartsWith(rest, "http://") && !StartsWith(rest, "https://")
    ensures StripScheme(scheme + rest) == rest
  {
    var x := scheme + rest;
    if scheme == "https://" {
      assert x[..8] == scheme;
    } else if scheme == "http://" {
      assert x[..7] == scheme;
      assert x[4] == ':';
    } else {
      assert x == rest;
    }
  }

  lemma StripWwwOf(www: string, rest: string)
    requires www == "" || www == "www."
    requires !StartsWith(rest, "www.")
    ensures StripWww(www + rest) == rest
  {
    if www == "www." {
      assert (www + rest)[..4] == www;
    } else {
      assert www + rest == rest;
    }
  }

  /**
   * The clean-up recovers the host from a URL written with or without a
   * scheme, with or without "www.", and with or without a path.
   */
  lemma CleanHostOfUrl(scheme: string, www: string, host: string, path: string)
    requires scheme == "" || scheme == "http://" || scheme == "https://"
    requires www == "" || www == "www."
    requires '/' !in host && !StartsWith(host, "www.") && host != "http:" && host != "https:"
    requires path == "" || path[0] == '/'
    ensures CleanHost(scheme + www + host + path) == host
  {
    var rest := host + path;
    var afterScheme := www + rest;
    assert scheme + www + host + path == scheme + afterScheme;
    NoSchemeBeforeHost(host, path);
    NoWwwBeforeHost(host, path);
    if www == "www." {
      assert afterScheme[0] == 'w';
    }
    StripSchemeOf(scheme, afterScheme);
    StripWwwOf(www, rest);
    BeforeSlashOf(host, path);
  }

  /** A text without '/' does not start with a scheme. */
  lemma NoSchemeWithoutSlash(r: string)
    requires '/' !in r
    ensures !StartsWith(r, "http://") && !StartsWith(r, "https://")
  {
    if |r| >= 7 {
      assert r[5] in r && r[6] in r;
    }
  }

  /**
   * Cleaning an already cleaned host changes it only by dropping one more
   * "www.": a second pass is the identity unless the host still starts with "www.".
   */
  lemma CleanHostTwice(s: string)
    ensures var r := CleanHost(s);
      CleanHost(r) == if StartsWith(r, "www.") then r[4..] else r
  {
    var r := CleanHost(s);
    NoSchemeWithoutSlash(r);
    assert StripScheme(r) == r;
    var w := StripWww(r);
    assert forall i :: 0 <= i < |w| ==> w[i] in r;
    assert w + "" == w;
    BeforeSlashOf(w, "");
  }
}
