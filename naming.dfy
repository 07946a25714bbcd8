/** The string work of examples/scrape_web_to_md.py: the file name derived from
    a page URL (line 44) and the domain extracted from it (line 41). Both are
    chains of Python's `str.replace` followed, for the domain, by
    `str.split('/')[0]`; those two library operations are modelled here first. */
module Naming {

  /** True when `s` begins with `pat`. */
  predicate StartsWith(s: string, pat: string) {
    |pat| <= |s| && s[..|pat|] == pat
  }

  /** Python's `s.replace(pat, rep)` for a non-empty `pat`: scanning from the
      left, each occurrence of `pat` that does not overlap an earlier replaced
      one is replaced by `rep`. */
  function Replace(s: string, pat: string, rep: string): (r: string)
    requires pat != []
    ensures |rep| == |pat| ==> |r| == |s|
    ensures |rep| <= |pat| ==> |r| <= |s|
    decreases |s|
  {
    if StartsWith(s, pat) then rep + Replace(s[|pat|..], pat, rep)
    else if s == [] then []
    else [s[0]] + Replace(s[1..], pat, rep)
  }

  /** Python's `s.split(sep)[0]`: the text before the first `sep`, or all of
      `s` when `sep` does not occur. */
  function BeforeFirst(s: string, sep: char): (r: string)
    ensures sep !in r
    ensures r <= s
    ensures r == s || s[|r|] == sep
  {
    if s == [] || s[0] == sep then [] else [s[0]] + BeforeFirst(s[1..], sep)
  }

  /** Replacing a single character by a single character keeps the length and
      acts position by position. */
  lemma {:induction false} ReplaceCharPointwise(s: string, c: char, d: char)
    ensures |Replace(s, [c], [d])| == |s|
    ensures forall i :: 0 <= i < |s| ==>
      Replace(s, [c], [d])[i] == if s[i] == c then d else s[i]
  {
    if s != [] {
      ReplaceCharPointwise(s[1..], c, d);
      assert StartsWith(s, [c]) <==> s[0] == c;
      assert s[1..] == s[|[c]|..];
    }
  }

  /** What a character of the URL becomes in the file name. */
  function SafeChar(c: char): char {
    if c == '/' || c == ':' then '_' else c
  }

  /** `url.replace('/', '_').replace(':', '_')` (line 44). The scheme is not
      removed: its colon and slashes become underscores like any other. */
  function Filename(url: string): (f: string)
    ensures |f| == |url|
    ensures forall i :: 0 <= i < |url| ==> f[i] == SafeChar(url[i])
    ensures '/' !in f && ':' !in f
  {
    ReplaceCharPointwise(url, '/', '_');
    var once := Replace(url, "/", "_");
    ReplaceCharPointwise(once, ':', '_');
    Replace(once, ":", "_")
  }

  /** A name without separators is its own file name. */
  lemma FilenamePlain(s: string)
    requires '/' !in s && ':' !in s
    ensures Filename(s) == s
  {
  }

  /** Deriving a file name from a file name changes nothing. */
  lemma FilenameIdempotent(url: string)
    ensures Filename(Filename(url)) == Filename(url)
  {
    FilenamePlain(Filename(url));
  }

  /** The derived name keeps the scheme: only its colon and slashes change. */
  lemma FilenameOfHttpsUrl(host: string, path: string)
    requires '/' !in host && ':' !in host && '/' !in path && ':' !in path
    ensures Filename("https://" + host + "/" + path) == "https___" + host + "_" + path
  {
    var u, e := "https://" + host + "/" + path, "https___" + host + "_" + path;
    var f := Filename(u);
    forall i | 0 <= i < |u| ensures f[i] == e[i] {
      if i < 8 {
        assert u[i] == "https://"[i] && e[i] == "https___"[i];
      } else if i < 8 + |host| {
        assert u[i] == host[i - 8] && e[i] == host[i - 8];
      } else if i == 8 + |host| {
        assert u[i] == '/' && e[i] == '_';
      } else {
        assert u[i] == path[i - 9 - |host|] && e[i] == path[i - 9 - |host|];
      }
    }
  }

  /** `https://example.com/a` becomes `https___example.com_a`. */
  lemma FilenameExample(url: string)
    requires url == "https://example.com/a"
    ensures Filename(url) == "https___example.com_a"
  {
    var host, path := "example.com", "a";
    assert '/' !in host && ':' !in host;
    assert url == "https://" + host + "/" + path;
    FilenameOfHttpsUrl(host, path);
    assert "https___" + host + "_" + path == "https___example.com_a";
  }

  /** File names are derived character by character, so concatenation
      commutes with the derivation. */
  lemma FilenameConcat(a: string, b: string)
    ensures Filename(a + b) == Filename(a) + Filename(b)
  {
    var f := Filename(a + b);
    forall i | 0 <= i < |f| ensures f[i] == (Filename(a) + Filename(b))[i] {
      if i < |a| {
        assert (a + b)[i] == a[i];
      } else {
        assert (a + b)[i] == b[i - |a|];
      }
    }
  }

  /** Different URLs can share a file name: a `:` and a `/` at the same place
      both become `_`. */
  lemma FilenameCollision()
    ensures "https://example.com/a:b" != "https://example.com/a/b"
    ensures Filename("https://example.com/a:b") == Filename("https://example.com/a/b")
  {
    var u, v := "https://example.com/a:b", "https://example.com/a/b";
    assert u[21] != v[21];
    forall i | 0 <= i < |u| ensures Filename(u)[i] == Filename(v)[i] {
      assert SafeChar(u[i]) == SafeChar(v[i]);
    }
  }

  /** The URL after both scheme strings are removed wherever they occur
      (first half of line 41). */
  function Stripped(url: string): (r: string)
    ensures |r| <= |url|
  {
    Replace(Replace(url, "https://", ""), "http://", "")
  }

  /** `url.replace('https://', '').replace('http://', '').split('/')[0]`
      (line 41): the stripped URL up to, and not including, its first `/`. */
  function Domain(url: string): (d: string)
    ensures '/' !in d
    ensures d <= Stripped(url)
    ensures d == Stripped(url) || Stripped(url)[|d|] == '/'
  {
    BeforeFirst(Stripped(url), '/')
  }

  /** A text without `sep` followed by nothing or by `sep` splits at its end. */
  lemma {:induction false} BeforeFirstAt(x: string, y: string, sep: char)
    requires sep !in x
    requires y == [] || y[0] == sep
    ensures BeforeFirst(x + y, sep) == x
  {
    if x != [] {
      assert (x + y)[0] == x[0] && (x + y)[1..] == x[1..] + y;
      BeforeFirstAt(x[1..], y, sep);
    }
  }

  /** If no occurrence of `pat` starts inside `pre`, replacing in `pre + rest`
      leaves `pre` as it is. */
  lemma {:induction false} ReplaceAfterPrefix(pre: string, rest: string, pat: string, rep: string)
    requires pat != []
    requires forall k :: 0 <= k < |pre| ==> !StartsWith(pre[k..] + rest, pat)
    ensures Replace(pre + rest, pat, rep) == pre + Replace(rest, pat, rep)
    decreases |pre|
  {
    if pre != [] {
      var s := pre + rest;
      assert !StartsWith(s, pat) by {
        assert pre[0..] + rest == s;
      }
      assert Replace(s, pat, rep) == [s[0]] + Replace(s[1..], pat, rep);
      forall k | 0 <= k < |pre| - 1 ensures !StartsWith(pre[1..][k..] + rest, pat) {
        assert pre[1..][k..] == pre[k + 1..];
      }
      ReplaceAfterPrefix(pre[1..], rest, pat, rep);
      assert s[1..] == pre[1..] + rest;
      assert [s[0]] + (pre[1..] + Replace(rest, pat, rep)) == pre + Replace(rest, pat, rep);
    } else {
      assert pre + rest == rest;
    }
  }

  /** A scheme string is letters, then `:`, then `/`; so it cannot start in a
      text without `/` that does not end in `:` and is followed by nothing or
      by a `/`. */
  lemma SchemeNotAt(x: string, y: string, pat: string)
    requires pat == "https://" || pat == "http://"
    requires '/' !in x
    requires x == [] || x[|x| - 1] != ':'
    requires y == [] || y[0] == '/'
    ensures !StartsWith(x + y, pat)
  {
    var colon := if pat == "https://" then 5 else 4;
    assert pat[colon] == ':' && pat[colon + 1] == '/' && forall m :: 0 <= m <= colon ==> pat[m] != '/';
    if |pat| <= |x + y| {
      var m := if |x| > colon + 1 then colon + 1 else if |x| == colon + 1 then colon else |x|;
      assert (x + y)[m] != pat[m];
      assert (x + y)[..|pat|][m] != pat[m];
    }
  }

  /** Replacing a scheme string in `host + path`, where the host has no `/`
      and does not end in `:`, and the path is empty or starts with `/`, keeps
      the host and leaves a path that is again empty or starts with `/`. */
  lemma ReplaceSchemeAfterHost(host: string, path: string, pat: string) returns (path': string)
    requires pat == "https://" || pat == "http://"
    requires '/' !in host
    requires host == [] || host[|host| - 1] != ':'
    requires path == [] || path[0] == '/'
    ensures Replace(host + path, pat, "") == host + path'
    ensures path' == [] || path'[0] == '/'
  {
    forall k | 0 <= k < |host| ensures !StartsWith(host[k..] + path, pat) {
      var x := host[k..];
      assert x[|x| - 1] == host[|host| - 1];
      assert '/' !in x by {
        forall m | 0 <= m < |x| ensures x[m] != '/' {
          assert x[m] == host[k + m];
        }
      }
      SchemeNotAt(x, path, pat);
    }
    ReplaceAfterPrefix(host, path, pat, "");
    path' := Replace(path, pat, "");
    if path != [] {
      SchemeNotAt([], path, pat);
      assert [] + path == path;
    }
  }

  /** Replacing in `pre + rest`, where `pre` does not hold the first
      character of `pat`, leaves `pre` as it is. */
  lemma ReplaceSkipsChars(pre: string, rest: string, pat: string, rep: string)
    requires pat != [] && pat[0] !in pre
    ensures Replace(pre + rest, pat, rep) == pre + Replace(rest, pat, rep)
  {
    forall k | 0 <= k < |pre| ensures !StartsWith(pre[k..] + rest, pat) {
      assert (pre[k..] + rest)[0] == pre[k];
    }
    ReplaceAfterPrefix(pre, rest, pat, rep);
  }

  /** The domain of `https://host/...` is the host, for a host without `/`
      that does not end in `:`; a port such as `host:8080` stays in it. */
  lemma DomainOfHttpsUrl(host: string, path: string)
    requires '/' !in host && (host == [] || host[|host| - 1] != ':')
    requires path == [] || path[0] == '/'
    ensures Domain("https://" + host + path) == host
  {
    var s := "https://" + host + path;
    assert StartsWith(s, "https://") && s[8..] == host + path;
    var p1 := ReplaceSchemeAfterHost(host, path, "https://");
    var p2 := ReplaceSchemeAfterHost(host, p1, "http://");
    assert Replace(s, "https://", "") == "" + Replace(host + path, "https://", "") == host + p1;
    assert Stripped(s) == host + p2;
    BeforeFirstAt(host, p2, '/');
  }

  /** The domain of `http://host/...` is the host, for a host without `/`
      that does not end in `:`; a port such as `host:8080` stays in it. */
  lemma DomainOfHttpUrl(host: string, path: string)
    requires '/' !in host && (host == [] || host[|host| - 1] != ':')
    requires path == [] || path[0] == '/'
    ensures Domain("http://" + host + path) == host
  {
    var t := "http://" + host + path;
    var q1 := ReplaceSchemeAfterHost(host, path, "https://");
    assert Replace(t, "https://", "") == "http://" + (host + q1) by {
      assert t == "http://" + (host + path);
      HttpSchemeSkipped(host + path);
    }
    var q2 := ReplaceSchemeAfterHost(host, q1, "http://");
    assert Replace("http://" + (host + q1), "http://", "") == host + q2 by {
      ReplaceMatch(host + q1, "http://", "");
    }
    assert Stripped(t) == host + q2;
    BeforeFirstAt(host, q2, '/');
  }

  /** A port stays in the domain: `https://example.com:8080/a` has domain
      `example.com:8080`. */
  lemma DomainWithPort(url: string)
    requires url == "https://example.com:8080/a"
    ensures Domain(url) == "example.com:8080"
  {
    var host, path := "example.com:8080", "/a";
    assert url == "https://" + host + path;
    DomainOfHttpsUrl(host, path);
  }

  /** Removing `https://` from `http://` + `rest` keeps the `http://`. */
  lemma HttpSchemeSkipped(rest: string)
    ensures Replace("http://" + rest, "https://", "") == "http://" + Replace(rest, "https://", "")
  {
    var t := "http://" + rest;
    HeadOfHttp(rest);
    MismatchAt(t, "https://", 4);
    ReplaceNoMatch('h', "ttp://" + rest, "https://", "");
    ReplaceSkipsChars("ttp://", rest, "https://", "");
    HeadOfHttp(Replace(rest, "https://", ""));
  }

  /** `http://` followed by `x`, split after its first character. */
  lemma HeadOfHttp(x: string)
    ensures "http://" + x == ['h'] + ("ttp://" + x)
  {
  }

  /** `https://` followed by `x`, split after its first character. */
  lemma HeadOfHttps(x: string)
    ensures "https://" + x == ['h'] + ("ttps://" + x)
  {
  }

  /** A text that differs from `pat` at a position both have does not start
      with `pat`. */
  lemma MismatchAt(s: string, pat: string, i: nat)
    requires i < |s| && i < |pat| && s[i] != pat[i]
    ensures !StartsWith(s, pat)
  {
    if |pat| <= |s| {
      assert s[..|pat|][i] == s[i];
    }
  }

  /** Replacing in a text without the first character of `pat` changes
      nothing. */
  lemma ReplaceAbsent(s: string, pat: string, rep: string)
    requires pat != [] && pat[0] !in s
    ensures Replace(s, pat, rep) == s
  {
    ReplaceSkipsChars(s, [], pat, rep);
    assert s + [] == s;
  }

  /** Because the two replacements run one after the other and remove the
      scheme strings wherever they occur, the first removal can form a scheme
      string that the second does not remove. */
  lemma DomainAfterChainedRemoval(rest: string)
    requires 'h' !in rest
    ensures Domain(['h'] + ("https://" + ("ttps://" + rest))) == "https:"
  {
    var s, u := ['h'] + ("https://" + ("ttps://" + rest)), "https://" + rest;
    assert Replace(s, "https://", "") == u by {
      FirstRemovalFormsScheme(rest);
      HeadOfHttps(rest);
    }
    assert Stripped(s) == u by {
      SecondRemovalKeepsHttps(rest);
    }
    assert u == "https:" + ("//" + rest);
    BeforeFirstAt("https:", "//" + rest, '/');
  }

  /** Removing `https://` from `h` + `https://` + `ttps://...` leaves
      `h` + `ttps://...`. */
  lemma FirstRemovalFormsScheme(rest: string)
    requires 'h' !in rest
    ensures Replace(['h'] + ("https://" + ("ttps://" + rest)), "https://", "") == ['h'] + ("ttps://" + rest)
  {
    var tail := "ttps://" + rest;
    assert Replace("https://" + tail, "https://", "") == tail by {
      ReplaceAbsent(tail, "https://", "");
      ReplaceMatch(tail, "https://", "");
    }
    var s := ['h'] + ("https://" + tail);
    MismatchAt(s, "https://", 1);
    ReplaceNoMatch('h', "https://" + tail, "https://", "");
  }

  /** `https://...` holds no `http://` when the rest holds no `h`. */
  lemma SecondRemovalKeepsHttps(rest: string)
    requires 'h' !in rest
    ensures Replace("https://" + rest, "http://", "") == "https://" + rest
  {
    var tail := "ttps://" + rest;
    ReplaceAbsent(tail, "http://", "");
    HeadOfHttps(rest);
    MismatchAt(['h'] + tail, "http://", 4);
    ReplaceNoMatch('h', tail, "http://", "");
  }

  /** One step of `Replace` at an occurrence. */
  lemma ReplaceMatch(t: string, pat: string, rep: string)
    requires pat != []
    ensures Replace(pat + t, pat, rep) == rep + Replace(t, pat, rep)
  {
    assert (pat + t)[..|pat|] == pat && (pat + t)[|pat|..] == t;
  }

  /** One step of `Replace` where no occurrence starts. */
  lemma ReplaceNoMatch(c: char, t: string, pat: string, rep: string)
    requires pat != [] && !StartsWith([c] + t, pat)
    ensures Replace([c] + t, pat, rep) == [c] + Replace(t, pat, rep)
  {
    assert ([c] + t)[1..] == t;
  }
}
